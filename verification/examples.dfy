/**
 Worked cases of the distance and of the suggestion scan, on short ASCII
 words written out as their byte values:
   cat = [99, 97, 116]    cats = [99, 97, 116, 115]
   bat = [98, 97, 116]    dog  = [100, 111, 103]
 */
module Examples {
  import opened Words
  import opened Distance
  import opened Dictionary
  import opened Suggest

  /** A record whose only meaningful field is its word. */
  function Entry(w: Word): (r: Record) {
    Record(0, w, [], [], [], [])
  }

  /** "kitten" to "sitting" takes three edits. */
  lemma KittenSitting()
    ensures Dist([107, 105, 116, 116, 101, 110], [115, 105, 116, 116, 105, 110, 103], 6, 7) == 3
  {
  }

  /** "flaw" to "lawn" takes two edits. */
  lemma FlawLawn()
    ensures Dist([102, 108, 97, 119], [108, 97, 119, 110], 4, 4) == 2
  {
  }

  /** "bat" is one substitution from "cat". */
  lemma BatNearCat()
    ensures Accepts([98, 97, 116], [99, 97, 116])
  {
    assert Dist([98, 97, 116], [99, 97, 116], 3, 3) == 1;
  }

  /** "dog" is three edits from "cat" and does not start with it. */
  lemma DogFarFromCat()
    ensures !Accepts([100, 111, 103], [99, 97, 116])
  {
    var dog: Word, cat: Word := [100, 111, 103], [99, 97, 116];
    assert Dist(dog, cat, 1, 1) == 1;
    assert Dist(dog, cat, 1, 2) == 2 && Dist(dog, cat, 2, 1) == 2;
    assert Dist(dog, cat, 2, 2) == 2;
    assert Dist(dog, cat, 1, 3) == 3 && Dist(dog, cat, 3, 1) == 3;
    assert Dist(dog, cat, 2, 3) == 3 && Dist(dog, cat, 3, 2) == 3;
    assert Dist(dog, cat, 3, 3) == 3;
    assert !(cat <= dog);
  }

  /** The vocabulary {cat, cats, bat, dog}. */
  function Vocabulary(): (dict: map<Word, Record>) {
    map[[99, 97, 116] := Entry([99, 97, 116]), [99, 97, 116, 115] := Entry([99, 97, 116, 115]),
        [98, 97, 116] := Entry([98, 97, 116]), [100, 111, 103] := Entry([100, 111, 103])]
  }

  /** Of the vocabulary, every word but dog qualifies for the query "cat". */
  lemma CatMatchSet()
    ensures MatchSet(Vocabulary(), [99, 97, 116]) == {[99, 97, 116], [99, 97, 116, 115], [98, 97, 116]}
  {
    var cat: Word, cats: Word := [99, 97, 116], [99, 97, 116, 115];
    assert cat <= cat && cat <= cats;
    BatNearCat();
    DogFarFromCat();
  }

  /** bat, cat, cats is in ascending byte order. */
  lemma CatOrder()
    ensures StrictlySorted([[98, 97, 116], [99, 97, 116], [99, 97, 116, 115]])
  {
    PrefixIsLess([99, 97, 116], [99, 97, 116, 115]);
    LessTransitive([98, 97, 116], [99, 97, 116], [99, 97, 116, 115]);
  }

  /** With the vocabulary {cat, cats, bat, dog} and room for ten, the query
      "cat" yields bat (one substitution), cat (itself) and cats (an
      extension), and not dog, whatever order the map iterates in. */
  lemma CatSuggestions(order: seq<Word>)
    requires IterationOrder(order, Vocabulary())
    ensures Suggestions([99, 97, 116], 10, order) == [[98, 97, 116], [99, 97, 116], [99, 97, 116, 115]]
  {
    var expected: seq<Word> := [[98, 97, 116], [99, 97, 116], [99, 97, 116, 115]];
    CatMatchSet();
    assert |MatchSet(Vocabulary(), [99, 97, 116])| == 3;
    SuggestionsProperties([99, 97, 116], 10, Vocabulary(), order);
    SuggestionsComplete([99, 97, 116], 10, Vocabulary(), order);
    CatOrder();
    StrictlySortedUnique(Suggestions([99, 97, 116], 10, order), expected);
  }

  /** With room for one and two qualifying keys, the key met first wins:
      the result depends on the iteration order. */
  lemma FirstFoundWins()
    ensures Suggestions([99, 97, 116], 1, [[99, 97, 116], [98, 97, 116]]) == [[99, 97, 116]]
    ensures Suggestions([99, 97, 116], 1, [[98, 97, 116], [99, 97, 116]]) == [[98, 97, 116]]
  {
    BatNearCat();
    var o: seq<Word> := [[98, 97, 116], [99, 97, 116]];
    assert Matches(o[..1], [99, 97, 116]) == [[98, 97, 116]];
  }
}
