# A verified model of the cs918 lab text pipeline

The repository is a two-stage corpus exercise.

- **Cleaning** (`lab1/part_a.py`). Every line of a news corpus is
  lower-cased. It is then filtered by a sequence of "delete every match"
  substitutions:
  - characters outside `[a-zA-Z0-9 ]`;
  - isolated single letters;
  - all-digit words;
  - a URL pattern.

  The line is then split on whitespace, every word is lemmatized, and the
  words are joined again with single spaces.
- **Counting** (`lab1/part_b.py`). The cleaned lines are joined with single
  spaces and tokenized into the maximal runs of `\w` characters. The stage
  counts N (the tokens) and V (the distinct tokens), builds a
  `collections.Counter` vocabulary, and ranks its 25 most common entries
  with `most_common(25)`.

The model is written in Dafny, one module per concern:

| file | module | what it holds |
|---|---|---|
| `text.dfy` | `Text` | ASCII character classes, the maximal runs of a class (`Runs`, shared by `re.findall(r'\w+')` and `str.split()`), `' '.join`, and the unique decomposition of a text into runs and separators |
| `tokenizer.dfy` | `Tokenizer` | `tokenize_of` |
| `vocabulary.dfy` | `Vocabulary` | the `Counter` (keys in insertion order, counts, 0 for a missing key) and `vocabulary_size_of` |
| `ranking.dfy` | `Ranking` | `most_common(n)`: a stable sort by descending count, then the first `n` |
| `counting.dfy` | `Counting` | `start` of the counting stage |
| `filtering.dfy` | `Filtering` | `filter_text`, as a method with a loop, and its specification function |
| `rules.dfy` | `Rules` | the three deletion rules of lines 29–31 |
| `cleaning.dfy` | `Cleaning` | `lower()`, the per-line pipeline, and `start` of the cleaning stage |

A substitution by the empty string deletes exactly the characters that its
matches cover. So a pattern (`Filtering.Pattern`) is modelled as a
function that gives, for a text, one "covered" flag per character.

The three concrete rules are written as string functions:

- `[^a-zA-Z0-9 ]` covers every character outside the class.
- `\b[a-zA-Z]\b` covers a maximal `\w` run that is one letter.
- `\b\d+\b` covers a maximal `\w` run made only of digits. Digits are `\w`
  characters, so a boundary cannot fall inside a longer run.

The ranking the counting stage prints is over single tokens: it is
`most_common` of the vocabulary Counter, whatever the printed label says
(`lab1/part_b.py:39` says "trigrams"). The exercise list at the head of
`lab1/part_b.py` (lines 1-10) also asks for trigrams, positive and
negative word counts and a per-story majority. The code computes none of
these, and the model follows the code.

## Model

| member | source | states |
|---|---|---|
| Text.JoinSpace | lab1/part_b.py:33 | `' '.join`: no words give the empty string, and otherwise its length is the words' total length plus one per gap; `Text.RunsOfJoin`, `Text.RunsOfJoinOfRuns` and `Text.JoinSpaceClean` carry the rest of its contract |
| Text.Runs | lab1/part_b.py:22 | every token of `findall(r'\w+')` (and every field of `split()`) is a non-empty run of the class |
| Text.RunLength | lab1/part_b.py:22 | a run taken from the front is as long as possible: all its characters are in the class and the next one is not |
| Text.RunsEmptyIff | lab1/part_b.py:22 | a text has no run exactly when none of its characters is in the class |
| Text.RunsCharacterization | lab1/part_b.py:22 | the runs are exactly the sequence the text is woven from, with separators free of the class, every inner one non-empty (order of appearance, uniqueness) |
| Text.RunsOfWeave | lab1/part_b.py:22 | weaving runs with valid separators and taking the runs gives the runs back |
| Text.WeaveOfRuns | lab1/part_b.py:22 | every text is its runs woven with valid separators |
| Text.RunsAppend | lab1/part_b.py:33-34 | the runs of two texts split at a non-class character are the runs of each, concatenated |
| Text.RunsOfJoin | lab1/part_b.py:33-34 | the runs of lines joined by single spaces are each line's runs, concatenated, for any class without the space |
| Text.RunsCongruent | lab1/part_a.py:44 | two classes that agree on a text's characters give the same runs |
| Text.RunsOfJoinOfRuns | lab1/part_a.py:44 | splitting words joined by single spaces gives the words back |
| Text.JoinSpaceClean | lab1/part_a.py:44 | joining non-empty, space-free words gives no leading, trailing or doubled space, and gives the empty string only for no words |
| Tokenizer.Tokenize | lab1/part_b.py:22 | `findall(r'\w+', text)`: every token is a non-empty run of word characters; `Tokenizer.TokenizeCharacterization` states that they are exactly the text's runs, in order |
| Tokenizer.TokenizeOf | lab1/part_b.py:21-22 | the count is the number of tokens, and every token is non-empty and made of word characters |
| Tokenizer.TokenizeEmptyIff | lab1/part_b.py:22 | a text gives no token exactly when it has no word character |
| Tokenizer.TokenizeCharacterization | lab1/part_b.py:22 | the tokens are, in order, the word runs the text is made of |
| Tokenizer.TokenizeJoin | lab1/part_b.py:33-34 | tokenizing the space-joined lines is tokenizing each line and concatenating |
| Vocabulary.Increment | lab1/part_b.py:26 | counting one token raises its count by one, leaves every other count, and makes the token a key of the count map, adding no other key |
| Vocabulary.CounterOf | lab1/part_b.py:26 | `Counter(tokens)` (the `Counter` datatype: keys in insertion order, counts, 0 for a missing key): the keys of its count map are the tokens and every count is at least 1; `Vocabulary.CounterOfCounts`, `CounterOfKeys`, `CounterOfOrder` and `CounterOfTotal` carry the rest |
| Vocabulary.FirstIndex | lab1/part_b.py:26 | the first position of a token, or the length when it is absent |
| Vocabulary.VocabularySizeOf | lab1/part_b.py:25-27 | V is the number of keys of the Counter and of distinct tokens, V is at most N, and V is 0 exactly for no tokens |
| Vocabulary.VocabularySize | lab1/part_b.py:25-27 | the Counter has one key per distinct token, at most N, and none for no tokens |
| Vocabulary.CounterOfCounts | lab1/part_b.py:26 | the Counter counts every token by its number of occurrences, and has exactly the tokens as keys |
| Vocabulary.CounterOfKeys | lab1/part_b.py:26 | the Counter's keys are the distinct tokens, each listed once |
| Vocabulary.CounterOfOrder | lab1/part_b.py:26 | the Counter's keys are in order of first occurrence |
| Vocabulary.CounterOfTotal | lab1/part_b.py:26 | the counts add up to N |
| Ranking.Insert | lab1/part_b.py:40 | insertion into the ranked list adds exactly the one key |
| Ranking.SortByCount | lab1/part_b.py:40 | the sort is a permutation of the keys |
| Ranking.MostCommon | lab1/part_b.py:40 | `most_common(n)` lists min(n, V) entries, each a key paired with its count |
| Ranking.InsertRanked | lab1/part_b.py:40 | an insertion keeps the list ranked by count, with ties in first-occurrence order |
| Ranking.SortRanked | lab1/part_b.py:40 | the sort is stable: larger counts first, equal counts in first-occurrence order |
| Ranking.MostCommonIsPrefix | lab1/part_b.py:40 | `most_common(n)` is the first entries of the sorted keys |
| Ranking.MostCommonRanked | lab1/part_b.py:40 | the listed entries are strictly ranked, and every key left out is ranked behind all of them |
| Ranking.MostCommonLength | lab1/part_b.py:40 | `most_common(n)` lists n entries, or every distinct token when there are fewer |
| Ranking.MostCommonEntries | lab1/part_b.py:40 | each entry is a token with its number of occurrences, at least 1, and no token is listed twice |
| Ranking.MostCommonOrdered | lab1/part_b.py:40 | counts never rise along the list, and equal counts come in first-occurrence order |
| Ranking.MostCommonOmitted | lab1/part_b.py:40 | a token left out has a smaller count than each entry, or the same count and a later first occurrence; so it is counted at most as often as the last entry |
| Counting.Start | lab1/part_b.py:30-40 | `start`: V is the number of vocabulary keys, at most N and 0 exactly when N is, and the ranking lists min(25, V) keys with their counts; `Counting.StartCountsCorpus`, `StartSizes` and `StartTop` relate it to the corpus tokens |
| Counting.TopOf | lab1/part_b.py:40 | `most_common(25)` of a token list has min(25, V) entries of tokens with their occurrence counts, never rising, and no token left out is counted more often than the last entry |
| Counting.StartCountsCorpus | lab1/part_b.py:30-40 | the stage reports the token count, the distinct count, the Counter and the ranking of all lines' tokens together |
| Counting.StartSizes | lab1/part_b.py:33-38 | N is the number of the corpus tokens and V the number of distinct ones, V is at most N, V is 0 exactly when N is, and the vocabulary counts every token by its occurrences |
| Counting.StartTop | lab1/part_b.py:39-40 | the top list has min(25, V) entries, each a corpus token with its count, with counts that never rise, and every token left out is counted at most as often as the last entry |
| Filtering.Sub | lab1/part_a.py:16 | `pattern.sub('', text)` (the pattern given by the characters its matches cover): the result is a subsequence of the text, never longer |
| Filtering.FilterAll | lab1/part_a.py:12-18 | the value of `filtered` after the loop: never longer than the text, and no new character; `Filtering.FilterAllIsLeftFold` and `FilterAllShrinks` carry the rest |
| Filtering.Keep | lab1/part_a.py:16 | deleting characters never lengthens a text and adds no character |
| Filtering.FilterText | lab1/part_a.py:12-18 | the loop returns the fold of the substitutions over the patterns, and its result is a subsequence of the input |
| Filtering.FilterAllIsLeftFold | lab1/part_a.py:12-18 | no patterns return the input unchanged; otherwise the head pattern is applied first and the rest filter its result |
| Filtering.KeepIsSubsequence | lab1/part_a.py:16 | each deletion step returns a subsequence of its input |
| Filtering.SubsequenceTransitive | lab1/part_a.py:15-16 | a subsequence of a subsequence is a subsequence |
| Filtering.SubsequenceLength | lab1/part_a.py:16 | a subsequence is no longer than its sequence |
| Filtering.KeepAppend | lab1/part_a.py:16 | deletion works piece by piece on a concatenation |
| Filtering.KeepNoneCovered | lab1/part_a.py:16 | a pattern with no match leaves the text unchanged |
| Filtering.FilterAllShrinks | lab1/part_a.py:12-18 | filtering by any patterns gives a subsequence of the text: never longer, no new character |
| Rules.NonAlnumMatches | lab1/part_a.py:29 | `[^a-zA-Z0-9 ]`: one flag per character; `Rules.NonAlnumSelects` and `NonAlnumRule` state what it deletes |
| Rules.WordMatches | lab1/part_a.py:30-31 | a pattern whose matches are whole `\w` runs: one flag per character; `Rules.DeleteWordsRuns`, `DeleteWordsNothing` and `DeleteWordsIdempotent` state what it deletes |
| Rules.SingleLetterMatches | lab1/part_a.py:30 | `\b[a-zA-Z]\b`: one flag per character; `Rules.SingleLetterRule` states what it deletes |
| Rules.FullyNumericMatches | lab1/part_a.py:31 | `\b\d+\b`: one flag per character; `Rules.FullyNumericRule` states what it deletes |
| Rules.FilterWords | lab1/part_a.py:30-31 | the kept words are words of the list for which the rule does not hold |
| Rules.NonAlnumSelects | lab1/part_a.py:29 | deleting the matches of `[^a-zA-Z0-9 ]` keeps exactly the characters of the class, in order |
| Rules.NonAlnumRule | lab1/part_a.py:29 | after the class rule every character is in `[a-zA-Z0-9 ]`, a text over the class is unchanged, and the rule is idempotent |
| Rules.DeleteWordsRuns | lab1/part_a.py:30-31 | deleting whole words leaves the word runs for which the rule does not hold, in order: no two remaining words are joined |
| Rules.DeleteWordsNothing | lab1/part_a.py:30-31 | deleting whole words changes nothing when no word is to be deleted |
| Rules.DeleteWordsIdempotent | lab1/part_a.py:30-31 | deleting whole words a second time changes nothing |
| Rules.FieldsAreWordRuns | lab1/part_a.py:44 | on a text over `[a-zA-Z0-9 ]` the fields of `split()` are the `\w` runs |
| Rules.KeepInClass | lab1/part_a.py:16 | deletion keeps a text over a class over that class |
| Rules.WordRule | lab1/part_a.py:30-31 | on a text over `[a-zA-Z0-9 ]`, a whole-word rule keeps the class, leaves the fields for which it does not hold, in order, and is idempotent |
| Rules.SingleLetterRule | lab1/part_a.py:30 | on a text over `[a-zA-Z0-9 ]`, after `\b[a-zA-Z]\b` no field is a single letter, the other fields (such as `1a`) stay in order, and the rule is idempotent |
| Rules.FullyNumericRule | lab1/part_a.py:31 | on a text over `[a-zA-Z0-9 ]`, after `\b\d+\b` no field is all digits, the other fields (such as `abc123`) stay in order, and the rule is idempotent |
| Cleaning.LowerChar | lab1/part_a.py:43 | `lower()` of one character: never upper-case, a letter exactly when the input is, in `[a-zA-Z0-9 ]` exactly when the input is and then in `[a-z0-9 ]` |
| Cleaning.Split | lab1/part_a.py:44 | `str.split()`: every field is a non-empty run without whitespace; `Text.RunsCharacterization` states that the fields are exactly the line's runs, in order |
| Cleaning.FilterLine | lab1/part_a.py:43 | `filter_text(line.lower(), patterns=patterns)`: a subsequence of the lower-cased line, never longer than the line; `Cleaning.FilterLineRules` and `FilterLineIdempotent` carry the rest |
| Cleaning.CleanLine | lab1/part_a.py:44 | the split/lemmatize/join of one filtered line; its contract is `Cleaning.CleanLineWords`, under the lemmatizer assumption |
| Cleaning.Start | lab1/part_a.py:43-44 | one output line per input line; `Cleaning.StartOutput` states what each line is |
| Cleaning.Patterns | lab1/part_a.py:36-41 | the pattern tuple, in order; `Cleaning.FilterLineSteps` states that the filter applies them one after the other |
| Cleaning.LowerStr | lab1/part_a.py:43 | `lower()` keeps the length of the line |
| Cleaning.LowerStrIsLower | lab1/part_a.py:43 | after `lower()` no character is an upper-case letter, and lower-casing again changes nothing |
| Cleaning.LowerStrOfLower | lab1/part_a.py:43 | lower-casing a text without upper-case letters changes nothing |
| Cleaning.FilterLineSteps | lab1/part_a.py:36-43 | the line filter applies the four patterns of lines 36-41 (`Cleaning.Patterns`) one after the other |
| Cleaning.UrlInert | lab1/part_a.py:32-34 | the URL pattern, anchored at a scheme, deletes nothing from a text over `[a-z0-9 ]` |
| Cleaning.ClassRuleOfLower | lab1/part_a.py:29 | what the class rule leaves of a lower-cased line is over `[a-z0-9 ]` |
| Cleaning.FilterLineRules | lab1/part_a.py:43 | a filtered line is over `[a-z0-9 ]`, and its fields are the class rule's fields without single letters and then without all-digit words, in order |
| Cleaning.FilterLineIdempotent | lab1/part_a.py:43 | filtering an already filtered line changes nothing |
| Cleaning.CleanLineWords | lab1/part_a.py:44 | with a lemmatizer that maps words to words, an output line has no stray spaces, is empty exactly for a line without words, and splits into one lemma per filtered word |
| Cleaning.StartOutput | lab1/part_a.py:43-45 | every output line has no stray spaces and is the lemmas of its filtered fields, none a single letter or all digits |

## Left out

- File I/O: reading the corpus (the pandas `read_json` call at `lab1/part_a.py:27`), reading and writing line files, and all of `utils/files.py`. `utils/files.py` is not part of this model. The stages take and return the lines as values.
- Printing in `lab1/part_b.py:37-40`: the model returns N, V, the Counter and the ranking in a `Report` record instead.
- Lemmatization (`lab1/part_a.py:21-23`) is a call into NLTK WordNet. It is a parameter `lemmatize` of the cleaning stage. The only assumption made about it is `Cleaning.KeepsWords`: it maps a word to a non-empty word without whitespace.
- The `nltk_download` call and the `KeyboardInterrupt` handling (`lab1/part_a.py:48-53`, `lab1/part_b.py:43-47`).
- Cleaning.UrlInert: the URL pattern of `lab1/part_a.py:32-34` is not given a regex semantics. It is a parameter `url`. The model only knows, through `Cleaning.AnchoredAtScheme`, that a match must start at the beginning of the text with `http:` or `https:`. That is enough to prove that it deletes nothing after the class rule, but not what it would delete from other texts.
- General regular expressions: `filter_text` is modelled over arbitrary deletion patterns, given by the characters their matches cover. Only the three rules of lines 29–31 have concrete definitions.
- Unicode: `\w`, `\d`, `lower()` and the whitespace of `split()` are ASCII-only in the model. Python applies them to all of Unicode. The model deletes every non-ASCII character at the class rule; where Python's `lower()` turns one into ASCII, it keeps the result (see the Cleaning.LowerStr line below).
- Cleaning.LowerStr: does not model characters that change length or become ASCII under Unicode lower-casing (for example `'İ'`), because only the ASCII mapping is modelled.
- Trigram ranking, positive and negative word counts and the per-story majority listed at `lab1/part_b.py:1-10` are not in the code, so they are not modelled.
