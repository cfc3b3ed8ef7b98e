/**
 The Levenshtein distance of `edit_distance`, computed over the UTF-8 bytes of
 two strings by a top-down recursion over prefix lengths, memoised in a map
 that lives for one call.

 `Dist` is the recurrence exactly as the code writes it; `Lev` is the
 textbook Wagner-Fischer recurrence that takes the minimum over all three
 moves even when the last bytes agree. `DistIsLevenshtein` shows that the
 code's shortcut (take the diagonal when the bytes match) loses nothing.
 `EditDistance` is the memoised computation, proved equal to `Dist`.
 */
module Distance {
  import opened Words

  function AbsDiff(x: nat, y: nat): (d: nat) { if x <= y then y - x else x - y }

  /** The distance between the prefixes `a[..i]` and `b[..j]`, by the
      recurrence of `inner`. */
  function Dist(a: Word, b: Word, i: nat, j: nat): (d: nat)
    requires i <= |a| && j <= |b|
    decreases i + j
  {
    if i == 0 || j == 0 then Max(i, j)
    else if a[i - 1] == b[j - 1] then Dist(a, b, i - 1, j - 1)
    else 1 + Min(Min(Dist(a, b, i - 1, j), Dist(a, b, i, j - 1)), Dist(a, b, i - 1, j - 1))
  }

  /** The distance is at least the difference of the lengths and at most
      the larger length; in particular it is the other length when either
      prefix is empty. */
  lemma {:induction false} DistBounds(a: Word, b: Word, i: nat, j: nat)
    requires i <= |a| && j <= |b|
    ensures AbsDiff(i, j) <= Dist(a, b, i, j) <= Max(i, j)
    ensures i == 0 || j == 0 ==> Dist(a, b, i, j) == Max(i, j)
    decreases i + j
  {
    if 0 < i && 0 < j {
      DistBounds(a, b, i - 1, j - 1);
      DistBounds(a, b, i - 1, j);
      DistBounds(a, b, i, j - 1);
      BoundsStep(i, j, Dist(a, b, i - 1, j), Dist(a, b, i, j - 1), Dist(a, b, i - 1, j - 1), a[i - 1] == b[j - 1], Dist(a, b, i, j));
    }
  }

  /** The arithmetic of one step of DistBounds: if the three smaller
      distances respect their bounds, so does the one built from them. */
  lemma BoundsStep(i: nat, j: nat, del: nat, ins: nat, sub: nat, same: bool, d: nat)
    requires 0 < i && 0 < j
    requires AbsDiff(i - 1, j) <= del <= Max(i - 1, j)
    requires AbsDiff(i, j - 1) <= ins <= Max(i, j - 1)
    requires AbsDiff(i - 1, j - 1) <= sub <= Max(i - 1, j - 1)
    requires d == if same then sub else 1 + Min(Min(del, ins), sub)
    ensures AbsDiff(i, j) <= d <= Max(i, j)
  {
  }

  /** The textbook Levenshtein recurrence: the cheapest of deleting
      `a[i-1]`, inserting `b[j-1]`, or substituting one for the other (free
      when they are equal). */
  function Lev(a: Word, b: Word, i: nat, j: nat): (d: nat)
    requires i <= |a| && j <= |b|
    decreases i + j
  {
    if i == 0 then j
    else if j == 0 then i
    else
      var substitute := Lev(a, b, i - 1, j - 1) + (if a[i - 1] == b[j - 1] then 0 else 1);
      Min(Min(Lev(a, b, i - 1, j) + 1, Lev(a, b, i, j - 1) + 1), substitute)
  }

  /** Adding or removing one byte at the end of either prefix changes the
      distance by at most one. */
  lemma {:induction false} DistSteps(a: Word, b: Word, i: nat, j: nat)
    requires i <= |a| && j <= |b|
    ensures 0 < i ==> Dist(a, b, i, j) <= Dist(a, b, i - 1, j) + 1
    ensures 0 < i ==> Dist(a, b, i - 1, j) <= Dist(a, b, i, j) + 1
    ensures 0 < j ==> Dist(a, b, i, j) <= Dist(a, b, i, j - 1) + 1
    ensures 0 < j ==> Dist(a, b, i, j - 1) <= Dist(a, b, i, j) + 1
    decreases i + j
  {
    if 0 < i && 0 < j {
      DistSteps(a, b, i - 1, j);
      DistSteps(a, b, i, j - 1);
    }
  }

  /** Taking the diagonal on matching bytes gives the full Levenshtein
      distance. */
  lemma {:induction false} DistIsLevenshtein(a: Word, b: Word, i: nat, j: nat)
    requires i <= |a| && j <= |b|
    ensures Dist(a, b, i, j) == Lev(a, b, i, j)
    decreases i + j
  {
    if i == 0 || j == 0 {
      DistBounds(a, b, i, j);
    } else {
      var i', j' := i - 1, j - 1;
      DistIsLevenshtein(a, b, i', j);
      DistIsLevenshtein(a, b, i, j');
      DistIsLevenshtein(a, b, i', j');
      LevenshteinStep(a, b, i, j);
    }
  }

  /** One step of DistIsLevenshtein: when the two recurrences agree on the
      three smaller pairs, they agree on `(i, j)`. */
  lemma LevenshteinStep(a: Word, b: Word, i: nat, j: nat)
    requires 0 < i <= |a| && 0 < j <= |b|
    requires Dist(a, b, i - 1, j) == Lev(a, b, i - 1, j)
    requires Dist(a, b, i, j - 1) == Lev(a, b, i, j - 1)
    requires Dist(a, b, i - 1, j - 1) == Lev(a, b, i - 1, j - 1)
    ensures Dist(a, b, i, j) == Lev(a, b, i, j)
  {
    var i', j' := i - 1, j - 1;
    var del, ins, sub := Dist(a, b, i', j), Dist(a, b, i, j'), Dist(a, b, i', j');
    assert Lev(a, b, i, j) == Min(Min(del + 1, ins + 1), sub + (if a[i'] == b[j'] then 0 else 1));
    if a[i'] == b[j'] {
      DistSteps(a, b, i', j);
      DistSteps(a, b, i, j');
      assert sub <= del + 1 && sub <= ins + 1;
      assert Dist(a, b, i, j) == sub;
    } else {
      assert Dist(a, b, i, j) == 1 + Min(Min(del, ins), sub);
    }
  }

  /** The distance is zero exactly when the two prefixes are equal. */
  lemma {:induction false} DistZeroIffEqual(a: Word, b: Word, i: nat, j: nat)
    requires i <= |a| && j <= |b|
    ensures Dist(a, b, i, j) == 0 <==> a[..i] == b[..j]
    decreases i + j
  {
    if i == 0 || j == 0 {
      if i != j {
        assert |a[..i]| != |b[..j]|;
      }
    } else if a[i - 1] == b[j - 1] {
      DistZeroIffEqual(a, b, i - 1, j - 1);
      assert a[..i] == a[..i - 1] + [a[i - 1]];
      assert b[..j] == b[..j - 1] + [b[j - 1]];
      if a[..i] == b[..j] {
        assert a[..i - 1] == a[..i][..i - 1];
        assert b[..j - 1] == b[..j][..j - 1];
      }
    }
  }

  /** The distance does not depend on which string comes first. */
  lemma {:induction false} DistSymmetric(a: Word, b: Word, i: nat, j: nat)
    requires i <= |a| && j <= |b|
    ensures Dist(a, b, i, j) == Dist(b, a, j, i)
    decreases i + j
  {
    if i == 0 || j == 0 {
      assert Dist(b, a, j, i) == Max(j, i);
    } else {
      DistSymmetric(a, b, i - 1, j - 1);
      DistSymmetric(a, b, i - 1, j);
      DistSymmetric(a, b, i, j - 1);
      SymmetricStep(a, b, i, j);
    }
  }

  /** One step of DistSymmetric: the recurrence treats its two sides alike,
      so agreement on the three smaller pairs carries over to `(i, j)`. */
  lemma SymmetricStep(a: Word, b: Word, i: nat, j: nat)
    requires 0 < i <= |a| && 0 < j <= |b|
    requires Dist(a, b, i - 1, j) == Dist(b, a, j, i - 1)
    requires Dist(a, b, i, j - 1) == Dist(b, a, j - 1, i)
    requires Dist(a, b, i - 1, j - 1) == Dist(b, a, j - 1, i - 1)
    ensures Dist(a, b, i, j) == Dist(b, a, j, i)
  {
  }

  /** Whole-string facts: a string is at distance zero from itself (and from
      nothing else), the empty string is as far from `b` as `b` is long, and
      the distance never exceeds the longer length. */
  lemma EditDistanceFacts(a: Word, b: Word)
    ensures Dist(a, b, |a|, |b|) == 0 <==> a == b
    ensures Dist(a, a, |a|, |a|) == 0
    ensures Dist(a, b, |a|, |b|) <= Max(|a|, |b|)
    ensures Dist([], b, 0, |b|) == |b| && Dist(a, [], |a|, 0) == |a|
  {
    DistZeroIffEqual(a, b, |a|, |b|);
    DistZeroIffEqual(a, a, |a|, |a|);
    DistBounds(a, b, |a|, |b|);
    assert a[..|a|] == a && b[..|b|] == b;
  }

  /** Every entry of the memo holds the recurrence's value for its key. */
  ghost predicate MemoSound(a: Word, b: Word, m: map<(nat, nat), nat>) {
    forall p :: p in m ==> p.0 <= |a| && p.1 <= |b| && m[p] == Dist(a, b, p.0, p.1)
  }

  /** `inner`: answer from the memo when it holds `(i, j)`, otherwise by the
      recurrence, recording the answer before returning it. The map is
      threaded through the calls as the code threads `&mut m`. */
  method Inner(a: Word, b: Word, i: nat, j: nat, m: map<(nat, nat), nat>)
    returns (n: nat, m': map<(nat, nat), nat>)
    requires i <= |a| && j <= |b|
    requires MemoSound(a, b, m)
    ensures n == Dist(a, b, i, j)
    ensures MemoSound(a, b, m')
    ensures (i, j) in m' && m.Keys <= m'.Keys
    decreases i + j
  {
    if (i, j) in m {
      return m[(i, j)], m;
    }
    if i == 0 || j == 0 {
      n := Max(i, j);
      m' := m;
    } else {
      var i', j' := i - 1, j - 1;
      if a[i'] == b[j'] {
        n, m' := Inner(a, b, i', j', m);
      } else {
        var n1, n2, n3;
        n1, m' := Inner(a, b, i', j, m);
        n2, m' := Inner(a, b, i, j', m');
        n3, m' := Inner(a, b, i', j', m');
        n := 1 + Min(Min(n1, n2), n3);
      }
    }
    MemoInsert(a, b, m', i, j, n);
    m' := m'[(i, j) := n];
  }

  /** Recording a correct value keeps the memo sound. */
  lemma MemoInsert(a: Word, b: Word, m: map<(nat, nat), nat>, i: nat, j: nat, n: nat)
    requires i <= |a| && j <= |b|
    requires MemoSound(a, b, m) && n == Dist(a, b, i, j)
    ensures MemoSound(a, b, m[(i, j) := n])
  {
  }

  /** `edit_distance`: starts `inner` at the full lengths with an empty memo. */
  method EditDistance(a: Word, b: Word) returns (n: nat)
    ensures n == Dist(a, b, |a|, |b|)
    ensures n == Lev(a, b, |a|, |b|)
  {
    var m: map<(nat, nat), nat> := map[];
    n, m := Inner(a, b, |a|, |b|, m);
    DistIsLevenshtein(a, b, |a|, |b|);
  }
}
