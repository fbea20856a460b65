/** The vocabulary of the counting stage (`vocabulary_size_of` in
    lab1/part_b.py): a `collections.Counter` built from the token list, and
    its number of keys. A Counter is a dictionary from token to count whose
    keys keep the order in which they were first inserted; looking up a
    missing token gives 0. */
module Vocabulary {

  /** A Counter: its keys in insertion order and its counts. */
  datatype Counter = Counter(keys: seq<string>, count: map<string, nat>) {

    /** `counter[t]`: the count of `t`, 0 when `t` is not a key. */
    function Get(t: string): nat {
      if t in count then count[t] else 0
    }

    /** `len(counter)`. */
    function Size(): nat {
      |keys|
    }
  }

  predicate Distinct(s: seq<string>) {
    forall i, j :: 0 <= i < j < |s| ==> s[i] != s[j]
  }

  /** The index of the first occurrence of `t` in `s`, or `|s|` when it does
      not occur. */
  function FirstIndex(s: seq<string>, t: string): (r: nat)
    ensures r <= |s|
    ensures r < |s| <==> t in s
    ensures r < |s| ==> s[r] == t
    ensures forall i :: 0 <= i < r ==> s[i] != t
  {
    if s == [] then 0
    else if s[0] == t then 0
    else 1 + FirstIndex(s[1..], t)
  }

  /** One step of counting: the count of `t` goes up by one, every other
      count stays, and `t` becomes the newest key if it was not a key yet. */
  function Increment(c: Counter, t: string): (r: Counter)
    ensures r.Get(t) == c.Get(t) + 1
    ensures forall k :: k != t ==> r.Get(k) == c.Get(k)
    ensures forall k :: k in r.count <==> k in c.count || k == t
  {
    if t in c.count then Counter(c.keys, c.count[t := c.count[t] + 1])
    else Counter(c.keys + [t], c.count[t := 1])
  }

  /** `Counter(tokens)`: the tokens counted one after the other. Its keys
      are the tokens, and every count is at least 1. */
  function CounterOf(tokens: seq<string>): (c: Counter)
    ensures forall t :: t in c.count <==> t in tokens
    ensures forall t :: t in c.count ==> c.count[t] >= 1
    decreases |tokens|
  {
    if tokens == [] then Counter([], map[])
    else Increment(CounterOf(tokens[..|tokens| - 1]), tokens[|tokens| - 1])
  }

  /** The sum of the counts of `keys`. */
  function SumOver(keys: seq<string>, c: Counter): nat {
    if keys == [] then 0 else SumOver(keys[..|keys| - 1], c) + c.Get(keys[|keys| - 1])
  }

  /** `vocabulary_size_of`: the number of distinct tokens and the Counter. */
  function VocabularySizeOf(tokens: seq<string>): (r: (nat, Counter))
    ensures r.0 == |r.1.keys|
    ensures r.0 == |set t | t in tokens|
    ensures r.0 <= |tokens|
    ensures r.0 == 0 <==> tokens == []
  {
    var counter := CounterOf(tokens);
    VocabularySize(tokens);
    (counter.Size(), counter)
  }

  /** The number of keys of Counter(tokens) is the number of distinct tokens;
      it is at most the number of tokens, and 0 only for no tokens. */
  lemma VocabularySize(tokens: seq<string>)
    ensures |CounterOf(tokens).keys| == |set t | t in tokens|
    ensures |CounterOf(tokens).keys| <= |tokens|
    ensures |CounterOf(tokens).keys| == 0 <==> tokens == []
  {
    var counter := CounterOf(tokens);
    CounterOfCounts(tokens);
    CounterOfKeys(tokens);
    CounterOfTotal(tokens);
    DistinctCardinality(counter.keys);
    assert (set t | t in counter.keys) == (set t | t in tokens);
    SumAtLeastSize(counter.keys, counter);
    if tokens != [] {
      assert tokens[0] in counter.keys;
    }
  }

  // ---------------------------------------------------------------------
  // Lemmas

  /** Appending an element does not move an existing first occurrence, and
      the appended element, when new, occurs first at the end. */
  lemma FirstIndexSnoc(s: seq<string>, x: string, t: string)
    ensures t in s ==> FirstIndex(s + [x], t) == FirstIndex(s, t)
    ensures t !in s && t == x ==> FirstIndex(s + [x], t) == |s|
  {
    var r := FirstIndex(s + [x], t);
    if t in s {
      var r0 := FirstIndex(s, t);
      assert (s + [x])[r0] == t;
      assert r <= r0;
      assert r < |s| && s[r] == (s + [x])[r];
    } else if t == x {
      assert (s + [x])[|s|] == t;
      assert forall i :: 0 <= i < |s| ==> (s + [x])[i] == s[i];
    }
  }

  /** Counter(tokens) counts each token by its number of occurrences, and
      its count map has exactly the tokens as keys. */
  lemma {:induction false} CounterOfCounts(tokens: seq<string>)
    ensures forall t :: t in CounterOf(tokens).count <==> t in tokens
    ensures forall t :: CounterOf(tokens).Get(t) == multiset(tokens)[t]
    decreases |tokens|
  {
    if tokens != [] {
      var prefix := tokens[..|tokens| - 1];
      var t := tokens[|tokens| - 1];
      assert tokens == prefix + [t];
      CounterOfCounts(prefix);
    }
  }

  /** The keys of Counter(tokens) are the distinct tokens, each once. */
  lemma {:induction false} CounterOfKeys(tokens: seq<string>)
    ensures forall t :: t in CounterOf(tokens).keys <==> t in tokens
    ensures Distinct(CounterOf(tokens).keys)
    decreases |tokens|
  {
    if tokens != [] {
      var prefix := tokens[..|tokens| - 1];
      var t := tokens[|tokens| - 1];
      assert tokens == prefix + [t];
      CounterOfKeys(prefix);
      CounterOfCounts(prefix);
    }
  }

  /** Keys in first-occurrence order stay so when a new token is counted
      at the end. */
  lemma OrderSnoc(prefix: seq<string>, t: string, keys: seq<string>)
    requires forall k :: k in keys ==> k in prefix
    requires t !in prefix
    requires forall i, j :: 0 <= i < j < |keys| ==> FirstIndex(prefix, keys[i]) < FirstIndex(prefix, keys[j])
    ensures forall i, j :: 0 <= i < j < |keys + [t]| ==>
              FirstIndex(prefix + [t], (keys + [t])[i]) < FirstIndex(prefix + [t], (keys + [t])[j])
  {
    var tokens := prefix + [t];
    var keys' := keys + [t];
    forall k | k in keys
      ensures FirstIndex(tokens, k) == FirstIndex(prefix, k) < |prefix|
    {
      FirstIndexSnoc(prefix, t, k);
    }
    FirstIndexSnoc(prefix, t, t);
    forall i, j | 0 <= i < j < |keys'|
      ensures FirstIndex(tokens, keys'[i]) < FirstIndex(tokens, keys'[j])
    {
      assert keys'[i] == keys[i] && keys[i] in keys;
      if j < |keys| {
        assert keys'[j] == keys[j] && keys[j] in keys;
      }
    }
  }

  /** Keys in first-occurrence order stay so when a token that occurred
      before is counted again. */
  lemma OrderRepeat(prefix: seq<string>, t: string, keys: seq<string>)
    requires forall k :: k in keys ==> k in prefix
    requires forall i, j :: 0 <= i < j < |keys| ==> FirstIndex(prefix, keys[i]) < FirstIndex(prefix, keys[j])
    ensures forall i, j :: 0 <= i < j < |keys| ==>
              FirstIndex(prefix + [t], keys[i]) < FirstIndex(prefix + [t], keys[j])
  {
    forall k | k in keys
      ensures FirstIndex(prefix + [t], k) == FirstIndex(prefix, k)
    {
      FirstIndexSnoc(prefix, t, k);
    }
  }

  /** The keys of Counter(tokens) are in the order of first occurrence. */
  lemma {:induction false} CounterOfOrder(tokens: seq<string>)
    ensures forall i, j :: 0 <= i < j < |CounterOf(tokens).keys| ==>
              FirstIndex(tokens, CounterOf(tokens).keys[i]) < FirstIndex(tokens, CounterOf(tokens).keys[j])
    decreases |tokens|
  {
    if tokens != [] {
      var prefix := tokens[..|tokens| - 1];
      var t := tokens[|tokens| - 1];
      assert tokens == prefix + [t];
      CounterOfOrder(prefix);
      CounterOfKeys(prefix);
      var c := CounterOf(prefix);
      if t in c.count {
        assert CounterOf(tokens).keys == c.keys;
        OrderRepeat(prefix, t, c.keys);
      } else {
        assert CounterOf(tokens).keys == c.keys + [t];
        OrderSnoc(prefix, t, c.keys);
      }
    }
  }

  /** The counts of Counter(tokens) add up to the number of tokens. */
  lemma {:induction false} CounterOfTotal(tokens: seq<string>)
    ensures SumOver(CounterOf(tokens).keys, CounterOf(tokens)) == |tokens|
    decreases |tokens|
  {
    if tokens != [] {
      var prefix := tokens[..|tokens| - 1];
      var t := tokens[|tokens| - 1];
      CounterOfTotal(prefix);
      CounterOfCounts(prefix);
      CounterOfKeys(prefix);
      var c := CounterOf(prefix);
      var c' := CounterOf(tokens);
      if t in c.count {
        SumOverBump(c.keys, c, c', t);
      } else {
        SumOverOthers(c.keys, c, c', t);
        assert c'.keys == c.keys + [t];
        assert c'.keys[..|c'.keys| - 1] == c.keys;
      }
    }
  }

  /** Counts that agree on `keys` give the same sum. */
  lemma {:induction false} SumOverOthers(keys: seq<string>, c: Counter, c': Counter, t: string)
    requires t !in keys
    requires forall k :: k != t ==> c'.Get(k) == c.Get(k)
    ensures SumOver(keys, c') == SumOver(keys, c)
    decreases |keys|
  {
    if keys != [] {
      SumOverOthers(keys[..|keys| - 1], c, c', t);
    }
  }

  /** Raising the count of one key that occurs once in `keys` by one raises
      the sum by one. */
  lemma {:induction false} SumOverBump(keys: seq<string>, c: Counter, c': Counter, t: string)
    requires Distinct(keys) && t in keys
    requires c'.Get(t) == c.Get(t) + 1
    requires forall k :: k != t ==> c'.Get(k) == c.Get(k)
    ensures SumOver(keys, c') == SumOver(keys, c) + 1
    decreases |keys|
  {
    var prefix := keys[..|keys| - 1];
    var last := keys[|keys| - 1];
    assert keys == prefix + [last];
    if last == t {
      assert t !in prefix;
      SumOverOthers(prefix, c, c', t);
    } else {
      SumOverBump(prefix, c, c', t);
    }
  }

  /** When every key counts at least once, the sum is at least the number
      of keys. */
  lemma {:induction false} SumAtLeastSize(keys: seq<string>, c: Counter)
    requires forall k :: k in keys ==> c.Get(k) >= 1
    ensures SumOver(keys, c) >= |keys|
    decreases |keys|
  {
    if keys != [] {
      SumAtLeastSize(keys[..|keys| - 1], c);
    }
  }

  /** A sequence without repetitions has as many elements as its set. */
  lemma {:induction false} DistinctCardinality(s: seq<string>)
    requires Distinct(s)
    ensures |set t | t in s| == |s|
    decreases |s|
  {
    if s != [] {
      var prefix := s[..|s| - 1];
      var last := s[|s| - 1];
      assert s == prefix + [last];
      DistinctCardinality(prefix);
      assert (set t | t in s) == (set t | t in prefix) + {last};
      assert last !in prefix;
    }
  }
}
