/** `Counter.most_common(n)` as lab1/part_b.py uses it: the Counter's keys
    sorted by count, largest first, by a stable sort (keys with equal counts
    stay in insertion order), cut to the first `n`, each paired with its
    count. */
module Ranking {
  import opened Vocabulary

  function Min(a: nat, b: nat): nat {
    if a <= b then a else b
  }

  /** Puts `t` into `ranked` in front of the first key whose count is not
      larger than the count of `t`. */
  function Insert(t: string, ranked: seq<string>, c: Counter): (r: seq<string>)
    ensures multiset(r) == multiset(ranked) + multiset{t}
  {
    if ranked == [] || c.Get(ranked[0]) <= c.Get(t) then [t] + ranked
    else
      assert ranked == [ranked[0]] + ranked[1..];
      [ranked[0]] + Insert(t, ranked[1..], c)
  }

  /** Stable insertion sort of `keys` by descending count. */
  function SortByCount(keys: seq<string>, c: Counter): (r: seq<string>)
    ensures multiset(r) == multiset(keys)
  {
    if keys == [] then []
    else
      assert keys == [keys[0]] + keys[1..];
      Insert(keys[0], SortByCount(keys[1..], c), c)
  }

  /** The names of a ranked list of (token, count) entries. */
  function Names(entries: seq<(string, nat)>): seq<string> {
    seq(|entries|, i requires 0 <= i < |entries| => entries[i].0)
  }

  /** `counter.most_common(n)`. */
  function MostCommon(c: Counter, n: nat): (r: seq<(string, nat)>)
    ensures |r| == Min(n, |c.keys|)
    ensures forall i :: 0 <= i < |r| ==> r[i].0 in c.keys && r[i].1 == c.Get(r[i].0)
  {
    var ranked := SortByCount(c.keys, c);
    assert |ranked| == |c.keys| by {
      assert |multiset(ranked)| == |multiset(c.keys)|;
    }
    var k := Min(n, |ranked|);
    assert forall i :: 0 <= i < k ==> ranked[i] in multiset(c.keys);
    seq(k, i requires 0 <= i < k => (ranked[i], c.Get(ranked[i])))
  }

  // ---------------------------------------------------------------------
  // The order of the ranking

  /** `a` is ranked ahead of `b`: a larger count, or an equal count and an
      earlier first occurrence in `tokens`. */
  predicate Ahead(tokens: seq<string>, c: Counter, a: string, b: string) {
    c.Get(a) > c.Get(b) || (c.Get(a) == c.Get(b) && FirstIndex(tokens, a) < FirstIndex(tokens, b))
  }

  predicate StrictlyRanked(tokens: seq<string>, c: Counter, s: seq<string>) {
    forall i, j :: 0 <= i < j < |s| ==> Ahead(tokens, c, s[i], s[j])
  }

  /** Inserting a key that occurs earlier than every ranked key keeps the
      ranking strict: the key goes behind exactly the larger counts. */
  lemma {:induction false} InsertRanked(tokens: seq<string>, c: Counter, t: string, ranked: seq<string>)
    requires StrictlyRanked(tokens, c, ranked)
    requires forall k :: k in ranked ==> FirstIndex(tokens, t) < FirstIndex(tokens, k)
    ensures StrictlyRanked(tokens, c, Insert(t, ranked, c))
    decreases |ranked|
  {
    var r := Insert(t, ranked, c);
    if ranked == [] || c.Get(ranked[0]) <= c.Get(t) {
      forall i, j | 0 <= i < j < |r|
        ensures Ahead(tokens, c, r[i], r[j])
      {
        if i == 0 {
          assert r[j] == ranked[j - 1] && ranked[j - 1] in ranked;
          if j > 1 {
            assert Ahead(tokens, c, ranked[0], ranked[j - 1]);
          }
        } else {
          assert r[i] == ranked[i - 1] && r[j] == ranked[j - 1];
        }
      }
    } else {
      var rest := Insert(t, ranked[1..], c);
      assert StrictlyRanked(tokens, c, ranked[1..]) by {
        forall i, j | 0 <= i < j < |ranked[1..]|
          ensures Ahead(tokens, c, ranked[1..][i], ranked[1..][j])
        {
          assert ranked[1..][i] == ranked[i + 1] && ranked[1..][j] == ranked[j + 1];
        }
      }
      InsertRanked(tokens, c, t, ranked[1..]);
      assert r == [ranked[0]] + rest;
      forall j | 0 <= j < |rest|
        ensures Ahead(tokens, c, ranked[0], rest[j])
      {
        assert rest[j] in multiset(rest);
        if rest[j] != t {
          assert rest[j] in ranked[1..];
          var m :| 0 <= m < |ranked[1..]| && ranked[1..][m] == rest[j];
          assert ranked[1..][m] == ranked[m + 1];
        }
      }
      forall i, j | 0 <= i < j < |r|
        ensures Ahead(tokens, c, r[i], r[j])
      {
        if i > 0 {
          assert r[i] == rest[i - 1] && r[j] == rest[j - 1];
        } else {
          assert r[j] == rest[j - 1];
        }
      }
    }
  }

  /** Keys listed in order of first occurrence are sorted into the strict
      ranking order: larger counts first, equal counts in first-occurrence
      order. This is the stability of the sort. */
  lemma {:induction false} SortRanked(tokens: seq<string>, c: Counter, keys: seq<string>)
    requires forall i, j :: 0 <= i < j < |keys| ==> FirstIndex(tokens, keys[i]) < FirstIndex(tokens, keys[j])
    ensures StrictlyRanked(tokens, c, SortByCount(keys, c))
    decreases |keys|
  {
    if keys != [] {
      var tail := keys[1..];
      assert forall i, j :: 0 <= i < j < |tail| ==> FirstIndex(tokens, tail[i]) < FirstIndex(tokens, tail[j]) by {
        assert forall i :: 0 <= i < |tail| ==> tail[i] == keys[i + 1];
      }
      SortRanked(tokens, c, tail);
      var sorted := SortByCount(tail, c);
      forall k | k in sorted
        ensures FirstIndex(tokens, keys[0]) < FirstIndex(tokens, k)
      {
        assert k in multiset(tail);
        var m :| 0 <= m < |tail| && tail[m] == k;
        assert tail[m] == keys[m + 1];
      }
      InsertRanked(tokens, c, keys[0], sorted);
    }
  }

  /** The entries of `most_common(n)` are the first keys of the sorted list. */
  lemma MostCommonIsPrefix(c: Counter, n: nat)
    ensures |SortByCount(c.keys, c)| == |c.keys|
    ensures forall i :: 0 <= i < |MostCommon(c, n)| ==>
              MostCommon(c, n)[i] == (SortByCount(c.keys, c)[i], c.Get(SortByCount(c.keys, c)[i]))
  {
    assert |multiset(SortByCount(c.keys, c))| == |multiset(c.keys)|;
  }

  /** A strict ranking of the keys makes the listed entries strictly ranked,
      and every key left out ranked behind all of them. */
  lemma MostCommonRanked(tokens: seq<string>, c: Counter, n: nat)
    requires StrictlyRanked(tokens, c, SortByCount(c.keys, c))
    ensures var r := MostCommon(c, n);
      && (forall i, j :: 0 <= i < j < |r| ==> Ahead(tokens, c, r[i].0, r[j].0))
      && (forall t, i :: t in c.keys && t !in Names(r) && 0 <= i < |r| ==> Ahead(tokens, c, r[i].0, t))
  {
    var r := MostCommon(c, n);
    var ranked := SortByCount(c.keys, c);
    MostCommonIsPrefix(c, n);
    forall t, i | t in c.keys && t !in Names(r) && 0 <= i < |r|
      ensures Ahead(tokens, c, r[i].0, t)
    {
      assert t in multiset(ranked);
      var m :| 0 <= m < |ranked| && ranked[m] == t;
      assert forall j :: 0 <= j < |r| ==> ranked[j] == Names(r)[j] != t;
      assert i < m;
    }
  }

  /** `most_common(n)` of the Counter of `tokens` lists `n` entries, or
      every distinct token when there are fewer. */
  lemma MostCommonLength(tokens: seq<string>, n: nat)
    ensures |MostCommon(CounterOf(tokens), n)| == Min(n, |set t | t in tokens|)
  {
    VocabularySize(tokens);
  }

  /** Every entry of `most_common(n)` is a token with its number of
      occurrences, and no token is listed twice. */
  lemma MostCommonEntries(tokens: seq<string>, n: nat)
    ensures var r := MostCommon(CounterOf(tokens), n);
      && (forall i :: 0 <= i < |r| ==> r[i].0 in tokens && r[i].1 == multiset(tokens)[r[i].0] >= 1)
      && (forall i, j :: 0 <= i < j < |r| ==> r[i].0 != r[j].0)
  {
    var c := CounterOf(tokens);
    CounterOfCounts(tokens);
    CounterOfKeys(tokens);
    CounterOfOrder(tokens);
    SortRanked(tokens, c, c.keys);
    MostCommonRanked(tokens, c, n);
  }

  /** Along `most_common(n)` counts never rise, and entries with equal
      counts come in the order of their first occurrence. */
  lemma MostCommonOrdered(tokens: seq<string>, n: nat)
    ensures var r := MostCommon(CounterOf(tokens), n);
      && (forall i, j :: 0 <= i < j < |r| ==> r[i].1 >= r[j].1)
      && (forall i, j :: 0 <= i < j < |r| && r[i].1 == r[j].1 ==>
            FirstIndex(tokens, r[i].0) < FirstIndex(tokens, r[j].0))
  {
    var c := CounterOf(tokens);
    CounterOfOrder(tokens);
    SortRanked(tokens, c, c.keys);
    MostCommonRanked(tokens, c, n);
  }

  /** Every token left out of `most_common(n)` is ranked behind every entry:
      it has a smaller count, or the same count and a later first
      occurrence. */
  lemma MostCommonOmitted(tokens: seq<string>, n: nat)
    ensures var r := MostCommon(CounterOf(tokens), n);
      forall t, i :: t in tokens && t !in Names(r) && 0 <= i < |r| ==>
        multiset(tokens)[t] < r[i].1 ||
        (multiset(tokens)[t] == r[i].1 && FirstIndex(tokens, r[i].0) < FirstIndex(tokens, t))
    ensures var r := MostCommon(CounterOf(tokens), n);
      forall t :: t in tokens && t !in Names(r) && r != [] ==> multiset(tokens)[t] <= r[|r| - 1].1
  {
    var c := CounterOf(tokens);
    CounterOfCounts(tokens);
    CounterOfKeys(tokens);
    CounterOfOrder(tokens);
    SortRanked(tokens, c, c.keys);
    MostCommonRanked(tokens, c, n);
  }
}
