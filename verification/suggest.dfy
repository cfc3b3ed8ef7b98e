/**
 `suggest_words`: scan the dictionary's keys in the map's iteration order,
 collect those within one edit of the query or extending it, stop as soon as
 `limit` have been collected, and return the collection sorted.

 A `HashMap` iterates in an unspecified order, so the order is a parameter:
 any sequence listing every key once. Because the scan stops early, which
 keys are returned depends on that order once more than `limit` keys
 qualify; when at most `limit` qualify the result is the same for every
 order (`SuggestionsOrderIndependent`).
 */
module Suggest {
  import opened Words
  import opened Distance
  import opened Dictionary

  /** The match condition: `edit_distance(k, word) <= 1 || k.starts_with(word)`. */
  predicate Accepts(k: Word, word: Word) {
    Dist(k, word, |k|, |word|) <= 1 || word <= k
  }

  /** `order` lists each key of `dict` exactly once. */
  ghost predicate IterationOrder(order: seq<Word>, dict: map<Word, Record>) {
    Distinct(order) && forall k :: k in order <==> k in dict
  }

  /** Every qualifying key of the dictionary, as a set. */
  function MatchSet(dict: map<Word, Record>, word: Word): (ks: set<Word>) {
    set k | k in dict && Accepts(k, word)
  }

  /** The keys of `order` that qualify, in iteration order. */
  function Matches(order: seq<Word>, word: Word): (r: seq<Word>)
    ensures forall k :: k in r <==> k in order && Accepts(k, word)
    ensures Distinct(order) ==> Distinct(r)
    decreases |order|
  {
    if |order| == 0 then []
    else
      var init := order[..|order| - 1];
      var k := order[|order| - 1];
      assert order == init + [k];
      if Accepts(k, word) then Matches(init, word) + [k] else Matches(init, word)
  }

  /** Scanning one more key appends it exactly when it qualifies. */
  lemma MatchesSnoc(order: seq<Word>, k: Word, word: Word)
    ensures Matches(order + [k], word) == if Accepts(k, word) then Matches(order, word) + [k] else Matches(order, word)
  {
    assert (order + [k])[..|order|] == order;
  }

  /** What `suggest_words` returns, stated without its loop: the first
      `limit` qualifying keys met in iteration order, sorted. */
  function Suggestions(word: Word, limit: nat, order: seq<Word>): (ws: seq<Word>) {
    var found := Matches(order, word);
    Sort(found[..Min(limit, |found|)])
  }

  /** The matches among the first `i` keys are a prefix of the matches
      among all of them. */
  lemma {:induction false} MatchesPrefix(order: seq<Word>, word: Word, i: nat)
    requires i <= |order|
    ensures Matches(order[..i], word) <= Matches(order, word)
    decreases |order| - i
  {
    if i < |order| {
      MatchesPrefix(order, word, i + 1);
      assert order[..i + 1][..i] == order[..i];
    } else {
      assert order[..i] == order;
    }
  }

  /** The scan of `suggest_words`. The limit test comes first in each
      iteration, before the key is examined, so the collection grows by at
      most one per iteration and never passes `limit`. */
  method SuggestWords(word: Word, limit: nat, dict: map<Word, Record>, order: seq<Word>)
    returns (words: seq<Word>)
    requires IterationOrder(order, dict)
    ensures words == Suggestions(word, limit, order)
    ensures StrictlySorted(words)
    ensures |words| <= limit
    ensures forall k :: k in words ==> k in dict && Accepts(k, word)
  {
    var found: seq<Word> := [];
    var i := 0;
    while i < |order|
      invariant i <= |order|
      invariant found == Matches(order[..i], word)
      invariant |found| <= limit
    {
      if |found| >= limit {
        MatchesPrefix(order, word, i);
        ghost var all := Matches(order, word);
        assert all[..Min(limit, |all|)] == found;
        words := Sort(found);
        SuggestionsProperties(word, limit, dict, order);
        return;
      }
      var k := order[i];
      var d := EditDistance(k, word);
      assert order[..i + 1] == order[..i] + [k];
      if d <= 1 || word <= k {
        found := found + [k];
      }
      i := i + 1;
    }
    assert order[..i] == order;
    assert found == Matches(order, word);
    assert found[..Min(limit, |found|)] == found;
    words := Sort(found);
    SuggestionsProperties(word, limit, dict, order);
  }

  /** Every suggestion is a qualifying key; the list is sorted without
      repeats; it holds `limit` keys, or every qualifying key when fewer
      qualify. */
  lemma SuggestionsProperties(word: Word, limit: nat, dict: map<Word, Record>, order: seq<Word>)
    requires IterationOrder(order, dict)
    ensures forall k :: k in Suggestions(word, limit, order) ==> k in dict && Accepts(k, word)
    ensures StrictlySorted(Suggestions(word, limit, order))
    ensures |Suggestions(word, limit, order)| == Min(limit, |MatchSet(dict, word)|)
  {
    var found := Matches(order, word);
    var taken := found[..Min(limit, |found|)];
    assert forall k :: k in taken ==> k in found;
    assert Distinct(taken);
    SortedDistinctIsStrict(Sort(taken));
    assert (set k | k in found) == MatchSet(dict, word);
    DistinctCardinality(found);
  }

  /** When no more than `limit` keys qualify, the suggestions are exactly the
      qualifying keys. */
  lemma SuggestionsComplete(word: Word, limit: nat, dict: map<Word, Record>, order: seq<Word>)
    requires IterationOrder(order, dict)
    requires |MatchSet(dict, word)| <= limit
    ensures forall k :: k in Suggestions(word, limit, order) <==> k in dict && Accepts(k, word)
  {
    var found := Matches(order, word);
    assert (set k | k in found) == MatchSet(dict, word);
    DistinctCardinality(found);
    assert found[..Min(limit, |found|)] == found;
  }

  /** When no more than `limit` keys qualify, the iteration order does not
      matter: any two orders of the same dictionary give the same list. */
  lemma SuggestionsOrderIndependent(word: Word, limit: nat, dict: map<Word, Record>, order1: seq<Word>, order2: seq<Word>)
    requires IterationOrder(order1, dict) && IterationOrder(order2, dict)
    requires |MatchSet(dict, word)| <= limit
    ensures Suggestions(word, limit, order1) == Suggestions(word, limit, order2)
  {
    SuggestionsProperties(word, limit, dict, order1);
    SuggestionsProperties(word, limit, dict, order2);
    SuggestionsComplete(word, limit, dict, order1);
    SuggestionsComplete(word, limit, dict, order2);
    StrictlySortedUnique(Suggestions(word, limit, order1), Suggestions(word, limit, order2));
  }
}
