/**
 Byte strings, the order Rust's `String` sorts by, and sorting under that order.

 A Rust `String` is handled by the dictionary service only through its UTF-8
 bytes: `edit_distance` walks `as_bytes`, `starts_with` compares byte prefixes,
 and `Ord for String` compares bytes lexicographically. So one type, a
 sequence of bytes, serves all three.
 */
module Words {

  /** One UTF-8 code unit. */
  newtype byte = b: int | 0 <= b < 0x100

  /** A Rust `String`, seen as its UTF-8 bytes. */
  type Word = seq<byte>

  function Min(x: nat, y: nat): (m: nat) { if x <= y then x else y }

  function Max(x: nat, y: nat): (m: nat) { if x <= y then y else x }

  /** Lexicographic byte order: the first differing byte decides, and a
      proper prefix sorts before its extensions. */
  predicate Less(x: Word, y: Word)
    decreases |x|
  {
    if |x| == 0 then |y| > 0
    else |y| > 0 && (x[0] < y[0] || (x[0] == y[0] && Less(x[1..], y[1..])))
  }

  predicate LessEq(x: Word, y: Word) {
    x == y || Less(x, y)
  }

  lemma {:induction false} LessIrreflexive(x: Word)
    ensures !Less(x, x)
    decreases |x|
  {
    if |x| > 0 {
      LessIrreflexive(x[1..]);
    }
  }

  lemma {:induction false} LessAsymmetric(x: Word, y: Word)
    ensures Less(x, y) ==> !Less(y, x)
    decreases |x|
  {
    if |x| > 0 && |y| > 0 && x[0] == y[0] {
      LessAsymmetric(x[1..], y[1..]);
    }
  }

  lemma {:induction false} LessTransitive(x: Word, y: Word, z: Word)
    ensures Less(x, y) && Less(y, z) ==> Less(x, z)
    decreases |x|
  {
    if |x| > 0 && |y| > 0 && |z| > 0 && x[0] == y[0] == z[0] {
      LessTransitive(x[1..], y[1..], z[1..]);
    }
  }

  lemma {:induction false} LessTotal(x: Word, y: Word)
    ensures x == y || Less(x, y) || Less(y, x)
    decreases |x|
  {
    if |x| > 0 && |y| > 0 && x[0] == y[0] {
      LessTotal(x[1..], y[1..]);
      if x[1..] == y[1..] {
        assert x == [x[0]] + x[1..] && y == [y[0]] + y[1..];
      }
    }
  }

  /** A proper prefix sorts first, so "cat" comes before "cats". */
  lemma {:induction false} PrefixIsLess(x: Word, y: Word)
    requires x < y
    ensures Less(x, y)
    decreases |x|
  {
    if |x| > 0 {
      assert x[1..] < y[1..];
      PrefixIsLess(x[1..], y[1..]);
    }
  }

  predicate Distinct<T(==)>(s: seq<T>) {
    forall i, j :: 0 <= i < j < |s| ==> s[i] != s[j]
  }

  /** Non-decreasing under LessEq, which is what `Vec::sort` delivers. */
  predicate Sorted(s: seq<Word>) {
    forall i, j :: 0 <= i < j < |s| ==> LessEq(s[i], s[j])
  }

  predicate StrictlySorted(s: seq<Word>) {
    forall i, j :: 0 <= i < j < |s| ==> Less(s[i], s[j])
  }

  /** Places `x` in a sorted sequence, keeping it sorted. */
  function Insert(x: Word, s: seq<Word>): (r: seq<Word>)
    requires Sorted(s)
    ensures Sorted(r)
    ensures multiset(r) == multiset(s) + multiset{x}
    ensures forall y :: y in r <==> y == x || y in s
    ensures Distinct(s) && x !in s ==> Distinct(r)
    decreases |s|
  {
    if |s| == 0 || LessEq(x, s[0]) then
      FrontSorted(x, s);
      [x] + s
    else
      var t := Insert(x, s[1..]);
      LessTotal(x, s[0]);
      SecondSorted(x, s, t);
      InsertDistinct(x, s, t);
      assert s == [s[0]] + s[1..];
      [s[0]] + t
  }

  lemma InsertDistinct(x: Word, s: seq<Word>, t: seq<Word>)
    requires |s| > 0 && x != s[0]
    requires forall y :: y in t <==> y == x || y in s[1..]
    requires Distinct(s) && x !in s ==> Distinct(t)
    ensures Distinct(s) && x !in s ==> Distinct([s[0]] + t)
  {
    if Distinct(s) && x !in s {
      assert s[0] !in s[1..];
      assert s[0] !in t;
    }
  }

  lemma FrontSorted(x: Word, s: seq<Word>)
    requires Sorted(s)
    requires |s| == 0 || LessEq(x, s[0])
    ensures Sorted([x] + s)
  {
    var r := [x] + s;
    forall i, j | 0 <= i < j < |r|
      ensures LessEq(r[i], r[j])
    {
      if i == 0 && j > 1 {
        LessTransitive(x, s[0], s[j - 1]);
      }
    }
  }

  lemma SecondSorted(x: Word, s: seq<Word>, t: seq<Word>)
    requires Sorted(s) && |s| > 0 && Less(s[0], x)
    requires Sorted(t)
    requires forall y :: y in t ==> y == x || y in s[1..]
    ensures Sorted([s[0]] + t)
  {
    var r := [s[0]] + t;
    forall i, j | 0 <= i < j < |r|
      ensures LessEq(r[i], r[j])
    {
      if i == 0 {
        assert r[j] in t;
        if r[j] != x {
          var k :| 0 <= k < |s[1..]| && s[1..][k] == r[j];
          assert s[k + 1] == r[j];
        }
      }
    }
  }

  /** Insertion sort: a sorted permutation of its input. */
  function Sort(s: seq<Word>): (r: seq<Word>)
    ensures Sorted(r)
    ensures multiset(r) == multiset(s)
    ensures forall y :: y in r <==> y in s
    ensures |r| == |s|
    ensures Distinct(s) ==> Distinct(r)
    decreases |s|
  {
    if |s| == 0 then []
    else
      assert s == [s[0]] + s[1..];
      Insert(s[0], Sort(s[1..]))
  }

  lemma SortedDistinctIsStrict(s: seq<Word>)
    requires Sorted(s) && Distinct(s)
    ensures StrictlySorted(s)
  {
  }

  /** Two strictly sorted sequences with the same elements are equal: the
      result of sorting distinct words does not depend on how they were
      ordered beforehand, nor on the sorting algorithm. */
  lemma {:induction false} StrictlySortedUnique(x: seq<Word>, y: seq<Word>)
    requires StrictlySorted(x) && StrictlySorted(y)
    requires forall w :: w in x <==> w in y
    ensures x == y
    decreases |x|
  {
    StrictIsDistinct(x);
    StrictIsDistinct(y);
    DistinctCardinality(x);
    DistinctCardinality(y);
    assert (set w | w in x) == (set w | w in y);
    if |x| > 0 {
      assert x[0] in x;
      assert y[0] in y;
      if x[0] != y[0] {
        var i :| 0 <= i < |x| && x[i] == y[0];
        var j :| 0 <= j < |y| && y[j] == x[0];
        assert Less(x[0], y[0]);
        assert Less(y[0], x[0]);
        LessAsymmetric(x[0], y[0]);
        assert false;
      }
      forall w
        ensures w in x[1..] <==> w in y[1..]
      {
        if w in x[1..] {
          var i :| 0 <= i < |x[1..]| && x[1..][i] == w;
          assert Less(x[0], w);
          LessIrreflexive(w);
          assert w in y;
          var j :| 0 <= j < |y| && y[j] == w;
          assert j != 0;
          assert y[1..][j - 1] == w;
        }
        if w in y[1..] {
          var j :| 0 <= j < |y[1..]| && y[1..][j] == w;
          assert Less(y[0], w);
          LessIrreflexive(w);
          assert w in x;
          var i :| 0 <= i < |x| && x[i] == w;
          assert i != 0;
          assert x[1..][i - 1] == w;
        }
      }
      StrictlySortedUnique(x[1..], y[1..]);
      assert x == [x[0]] + x[1..] && y == [y[0]] + y[1..];
    }
  }

  /** Strict order leaves no room for repeats. */
  lemma StrictIsDistinct(s: seq<Word>)
    requires StrictlySorted(s)
    ensures Distinct(s)
  {
    forall i, j | 0 <= i < j < |s|
      ensures s[i] != s[j]
    {
      LessIrreflexive(s[i]);
    }
  }

  /** A sequence without repeats has as many elements as its set. */
  lemma {:induction false} DistinctCardinality<T>(s: seq<T>)
    requires Distinct(s)
    ensures |set w | w in s| == |s|
    decreases |s|
  {
    if |s| > 0 {
      var t := s[..|s| - 1];
      DistinctCardinality(t);
      assert s == t + [s[|s| - 1]];
      assert s[|s| - 1] !in t;
      assert (set w | w in s) == (set w | w in t) + {s[|s| - 1]};
    }
  }
}
