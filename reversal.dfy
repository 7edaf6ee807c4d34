/** In-place reversal of the list of words that the backpointer walk
    produces last word first. */
module Reversal {

  /** The reference reversal: the last element first. */
  function Reversed<T>(s: seq<T>): (r: seq<T>)
  {
    if s == [] then [] else [s[|s| - 1]] + Reversed(s[..|s| - 1])
  }

  /** Position k of the reversal holds position |s|-1-k of the original,
      and the length is kept. */
  lemma {:induction false} ReversedAt<T>(s: seq<T>, k: int)
    requires 0 <= k < |s|
    ensures |Reversed(s)| == |s|
    ensures Reversed(s)[k] == s[|s| - 1 - k]
  {
    if k > 0 {
      ReversedAt(s[..|s| - 1], k - 1);
    } else if |s| > 1 {
      ReversedAt(s[..|s| - 1], 0);
    }
  }

  /** Appending at the end of the original prepends to the reversal. */
  lemma ReversedSnoc<T>(s: seq<T>, x: T)
    ensures Reversed(s + [x]) == [x] + Reversed(s)
  {
    assert (s + [x])[..|s|] == s;
  }

  /** Reversing twice gives back the original sequence. */
  lemma {:induction false} ReversedTwice<T>(s: seq<T>)
    ensures Reversed(Reversed(s)) == s
  {
    if s != [] {
      var init, last := s[..|s| - 1], s[|s| - 1];
      ReversedTwice(init);
      ReversedSnoc(Reversed(init), last);
      assert Reversed(s) == [last] + Reversed(init);
      assert Reversed(Reversed(s)) == Reversed([last] + Reversed(init));
      ReversedCons(last, Reversed(init));
      assert init + [last] == s;
    }
  }

  /** Prepending to the original appends to the reversal. */
  lemma {:induction false} ReversedCons<T>(x: T, s: seq<T>)
    ensures Reversed([x] + s) == Reversed(s) + [x]
  {
    if s != [] {
      var init, last := s[..|s| - 1], s[|s| - 1];
      assert ([x] + s)[..|s|] == [x] + init;
      ReversedCons(x, init);
    }
  }

  /** Swaps the two ends and walks inwards until the indices meet. */
  method Reverse(a: array<string>)
    modifies a
    ensures a[..] == Reversed(old(a[..]))
  {
    var i, j := 0, a.Length - 1;
    while i < j
      invariant 0 <= i <= j + 1 && j == a.Length - 1 - i
      invariant forall m :: 0 <= m < i ==> a[m] == old(a[a.Length - 1 - m]) && a[a.Length - 1 - m] == old(a[m])
      invariant forall m :: i <= m <= j ==> a[m] == old(a[m])
    {
      a[i], a[j] := a[j], a[i];
      i, j := i + 1, j - 1;
    }
    ghost var before := old(a[..]);
    if a.Length == 0 {
      assert before == [];
    } else {
      ReversedAt(before, 0);
      forall m | 0 <= m < a.Length
        ensures a[..][m] == Reversed(before)[m]
      {
        ReversedAt(before, m);
      }
    }
  }
}
