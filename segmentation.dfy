/** Segmentations of a text as lists of words, and the segmentation that a
    table of backpointers describes. */
module Segmentation {

  /** The text a list of words spells when written one after another. */
  function Concat(ws: seq<string>): (r: string)
  {
    if ws == [] then [] else Concat(ws[..|ws| - 1]) + ws[|ws| - 1]
  }

  /** Appending a word appends its characters. */
  lemma ConcatSnoc(ws: seq<string>, w: string)
    ensures Concat(ws + [w]) == Concat(ws) + w
  {
    assert (ws + [w])[..|ws|] == ws;
  }

  /** Words of at least one character spell at least one character each. */
  lemma {:induction false} ConcatLength(ws: seq<string>)
    requires forall w :: w in ws ==> 0 < |w|
    ensures |ws| <= |Concat(ws)|
  {
    if ws != [] {
      assert ws[|ws| - 1] in ws;
      assert forall w :: w in ws[..|ws| - 1] ==> w in ws;
      ConcatLength(ws[..|ws| - 1]);
    }
  }

  /** A backpointer table over `text`: one entry per position 0..|text|,
      and every position after the first points strictly backwards. */
  predicate Backpointers(text: string, lasts: seq<int>)
  {
    && |lasts| == |text| + 1
    && forall i :: 1 <= i <= |text| ==> 0 <= lasts[i] < i
  }

  /** The words found by following backpointers from position i down to 0,
      in text order. Every word is non-empty and together they spell
      exactly the prefix text[..i]. */
  ghost function Path(text: string, lasts: seq<int>, i: int): (ws: seq<string>)
    requires Backpointers(text, lasts) && 0 <= i <= |text|
    ensures Concat(ws) == text[..i]
    ensures forall w :: w in ws ==> 0 < |w|
    decreases i
  {
    if i == 0 then []
    else
      var l := lasts[i];
      var ws := Path(text, lasts, l) + [text[l..i]];
      ConcatSnoc(Path(text, lasts, l), text[l..i]);
      assert text[..l] + text[l..i] == text[..i];
      ws
  }

  /** One step of the walk: the path to i is the path to lasts[i]
      followed by the word text[lasts[i]..i]. */
  lemma PathStep(text: string, lasts: seq<int>, i: int)
    requires Backpointers(text, lasts) && 1 <= i <= |text|
    ensures Path(text, lasts, i) == Path(text, lasts, lasts[i]) + [text[lasts[i]..i]]
  {
  }
}
