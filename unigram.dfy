/** The unigram corpus model and the Viterbi segmenter that runs over it. */
module Unigram {
  import opened Selection
  import opened Reversal
  import opened Segmentation

  /** The word-frequency table of a token list: every distinct token mapped
      to its number of occurrences. */
  function Frequencies(w: seq<string>): (m: map<string, int>)
  {
    map x | x in w :: multiset(w)[x]
  }

  /** Counting one more token bumps its entry, or adds it with count 1. */
  lemma FrequenciesSnoc(w: seq<string>, x: string)
    ensures Frequencies(w + [x]) ==
              if x in Frequencies(w) then Frequencies(w)[x := Frequencies(w)[x] + 1]
              else Frequencies(w)[x := 1]
  {
    assert multiset(w + [x]) == multiset(w) + multiset{x};
  }

  /** The keys are exactly the distinct tokens and every count is positive. */
  lemma FrequenciesKeys(w: seq<string>, x: string)
    ensures x in Frequencies(w) <==> x in w
    ensures x in w ==> 0 < Frequencies(w)[x] <= |w|
  {
    if x in w {
      assert multiset(w)[x] <= |multiset(w)|;
    }
  }

  /** The table depends only on which tokens occur how often, not on their
      order (so sorting the tokens first changes nothing). */
  lemma FrequenciesOrderIndependent(a: seq<string>, b: seq<string>)
    requires multiset(a) == multiset(b)
    ensures Frequencies(a) == Frequencies(b)
  {
    forall x
      ensures x in a <==> x in b
    {
      assert x in a <==> x in multiset(a);
      assert x in b <==> x in multiset(b);
    }
  }

  /** Sum of all the counts of a table. */
  ghost function SumCounts(m: map<string, int>): (r: int)
    decreases |m|
  {
    if m == map[] then 0
    else
      var x :| x in m;
      assert (m - {x}).Keys == m.Keys - {x};
      m[x] + SumCounts(m - {x})
  }

  /** Any entry may be taken out first: the sum does not depend on the
      order in which the entries are visited. */
  lemma {:induction false} SumCountsRemove(m: map<string, int>, x: string)
    requires x in m
    ensures SumCounts(m) == m[x] + SumCounts(m - {x})
    decreases |m|
  {
    var y :| y in m && SumCounts(m) == m[y] + SumCounts(m - {y});
    if y != x {
      assert (m - {y}).Keys == m.Keys - {y};
      assert (m - {x}).Keys == m.Keys - {x};
      SumCountsRemove(m - {y}, x);
      SumCountsRemove(m - {x}, y);
      assert m - {y} - {x} == m - {x} - {y};
    }
  }

  /** Bumping a present entry by one adds one to the sum. */
  lemma SumCountsBump(m: map<string, int>, x: string)
    requires x in m
    ensures SumCounts(m[x := m[x] + 1]) == SumCounts(m) + 1
  {
    SumCountsRemove(m, x);
    SumCountsRemove(m[x := m[x] + 1], x);
    assert m[x := m[x] + 1] - {x} == m - {x};
  }

  /** Adding an absent entry with count one adds one to the sum. */
  lemma SumCountsAdd(m: map<string, int>, x: string)
    requires x !in m
    ensures SumCounts(m[x := 1]) == SumCounts(m) + 1
  {
    SumCountsRemove(m[x := 1], x);
    assert m[x := 1] - {x} == m;
  }

  /** The counts add up to the number of tokens. */
  lemma {:induction false} FrequenciesSum(w: seq<string>)
    ensures SumCounts(Frequencies(w)) == |w|
  {
    if w != [] {
      var init, x := w[..|w| - 1], w[|w| - 1];
      assert init + [x] == w;
      FrequenciesSum(init);
      FrequenciesSnoc(init, x);
      if x in Frequencies(init) {
        SumCountsBump(Frequencies(init), x);
      } else {
        SumCountsAdd(Frequencies(init), x);
      }
    }
  }

  /** Length of the longest token, 0 when there is none. */
  function MaxLen(ws: seq<string>): (r: int)
    ensures 0 <= r
    ensures forall w :: w in ws ==> |w| <= r
    ensures ws != [] ==> exists w :: w in ws && |w| == r
    ensures ws == [] ==> r == 0
  {
    if ws == [] then 0
    else
      var init := ws[..|ws| - 1];
      assert ws == init + [ws[|ws| - 1]];
      Max(MaxLen(init), |ws[|ws| - 1]|)
  }

  /** The longest length depends only on which tokens occur. */
  lemma MaxLenOrderIndependent(a: seq<string>, b: seq<string>)
    requires multiset(a) == multiset(b)
    ensures MaxLen(a) == MaxLen(b)
  {
    if a != [] {
      assert b != [] by { assert |a| == |multiset(a)| == |multiset(b)| == |b|; }
      var wa :| wa in a && |wa| == MaxLen(a);
      var wb :| wb in b && |wb| == MaxLen(b);
      assert wa in multiset(b);
      assert wb in multiset(a);
    } else {
      assert |b| == |multiset(b)| == |multiset(a)| == 0;
    }
  }

  /** The corpus model: word counts, the token total as a float, and the
      length of the longest token, which bounds the segmenter's window. */
  class Corpus {
    var words: map<string, int>
    var maxlen: int
    var total: real

    /** An empty corpus (Go's zero value). */
    constructor ()
      ensures words == map[] && maxlen == 0 && total == 0.0
    {
      words, maxlen, total := map[], 0, 0.0;
    }

    /** The state the corpus is in after training on `tokens`. */
    ghost predicate Trained(tokens: seq<string>)
      reads this
    {
      && words == Frequencies(tokens)
      && total == |tokens| as real
      && maxlen == MaxLen(tokens)
    }

    /** No word has a negative count, so no probability is negative. */
    ghost predicate CountsNonNegative()
      reads this
    {
      forall x :: x in words ==> 0 <= words[x]
    }

    /** Replaces the table and the total by those of `w`; `maxlen` is left
      alone. Both branches of the counting loop add one to the total. */
    method WordFreq(w: seq<string>)
      modifies this
      ensures words == Frequencies(w)
      ensures total == |w| as real
      ensures maxlen == old(maxlen)
    {
      var out: map<string, int> := map[];
      var count := 0;
      for n := 0 to |w|
        invariant maxlen == old(maxlen)
        invariant out == Frequencies(w[..n])
        invariant count == n
      {
        var x := w[n];
        assert w[..n + 1] == w[..n] + [x];
        FrequenciesSnoc(w[..n], x);
        if x in out {
          out := out[x := out[x] + 1];
          count := count + 1;
        } else {
          out := out[x := 1];
          count := count + 1;
        }
      }
      assert w[..|w|] == w;
      words := out;
      total := count as real;
    }

    /** Relative frequency of `word`: its count over the total, with an
      absent word counting 0. */
    function WordProb(word: string): (r: real)
      reads this
      requires 0.0 < total
      ensures word !in words ==> r == 0.0
      ensures word in words ==> r * total == words[word] as real
      ensures 0.0 < r <==> word in words && 0 < words[word]
      ensures CountsNonNegative() ==> 0.0 <= r
    {
      (if word in words then words[word] else 0) as real / total
    }

    /** After training, a word's probability is its share of the tokens. */
    lemma WordProbOfTokens(tokens: seq<string>, x: string)
      requires Trained(tokens) && tokens != []
      ensures WordProb(x) == multiset(tokens)[x] as real / |tokens| as real
    {
      FrequenciesKeys(tokens, x);
    }

    /** The pure part of loading a corpus: the longest-token loop, counting
      the tokens, then setting `maxlen`. No tokens at all is a fatal error
      in the source; here it reports failure and leaves the corpus alone. */
    method LoadWords(tokens: seq<string>) returns (ok: bool)
      modifies this
      ensures ok == (tokens != [])
      ensures ok ==> Trained(tokens)
      ensures !ok ==> unchanged(this)
    {
      if tokens == [] {
        return false;
      }
      var ws: seq<string> := [];
      var longest := 0;
      for n := 0 to |tokens|
        invariant ws == tokens[..n]
        invariant longest == MaxLen(tokens[..n])
      {
        assert tokens[..n + 1][..n] == tokens[..n];
        if |tokens[n]| > longest {
          longest := |tokens[n]|;
        }
        ws := ws + [tokens[n]];
      }
      assert tokens[..|tokens|] == tokens;
      WordFreq(ws);
      maxlen := longest;
      ok := true;
    }

    /** A trained corpus meets what the segmenter needs: counts are
      positive, and a positive `maxlen` implies a positive total. */
    lemma TrainedIsConsistent(tokens: seq<string>)
      requires Trained(tokens)
      ensures forall x :: x in words ==> 0 < words[x]
      ensures CountsNonNegative()
      ensures 0 <= maxlen
      ensures 0 < maxlen ==> 0.0 < total
    {
      forall x | x in words
        ensures 0 < words[x]
      {
        FrequenciesKeys(tokens, x);
      }
    }

    /** Training on a permutation of the tokens gives the same corpus. */
    lemma TrainedOrderIndependent(a: seq<string>, b: seq<string>)
      requires multiset(a) == multiset(b)
      ensures Trained(a) <==> Trained(b)
    {
      FrequenciesOrderIndependent(a, b);
      MaxLenOrderIndependent(a, b);
      assert |a| == |multiset(a)| == |multiset(b)| == |b|;
    }

    // ------------------------------------------------------------------
    // The Viterbi segmenter

    /** The probability of a path extended by the word w: the path's
      probability times the word's. */
    ghost function Extend(p: real, w: string): (r: real)
      reads this
      requires 0.0 < total
      ensures CountsNonNegative() && 0.0 <= p ==> 0.0 <= r
    {
      p * WordProb(w)
    }

    /** Extending by a word keeps the order of path probabilities. */
    lemma ExtendMono(a: real, b: real, w: string)
      requires 0.0 < total && CountsNonNegative() && a <= b
      ensures Extend(a, w) <= Extend(b, w)
    {
      MulMono(a, b, WordProb(w));
    }

    /** Product of the probabilities of the words, in order. */
    ghost function Score(ws: seq<string>): (r: real)
      reads this
      requires 0.0 < total
      ensures CountsNonNegative() ==> 0.0 <= r
    {
      if ws == [] then 1.0 else Extend(Score(ws[..|ws| - 1]), ws[|ws| - 1])
    }

    /** `ws` spells `text` with words of 1 to `maxlen` characters, the only
      words the segmenter's window can propose. */
    ghost predicate IsSegmentation(ws: seq<string>, text: string)
      reads this
    {
      && Concat(ws) == text
      && forall w :: w in ws ==> 0 < |w| <= maxlen
    }

    /** The worth of ending the last word of text[..i] at position j: the
      best probability of text[..j] times that of the word text[j..i]. */
    ghost function Candidate(text: string, probs: seq<real>, j: int, i: int): (r: real)
      reads this
      requires 0.0 < total
      requires 0 <= j < i <= |text| && j < |probs|
    {
      Extend(probs[j], text[j..i])
    }

    /** Entry i of the DP tables: among the candidates j of the window
      max(0, i-maxlen) .. i-1, probs[i] is the maximum of 0 and all of
      them; when it is positive lasts[i] is the first j that reaches it,
      otherwise lasts[i] is 0. */
    ghost predicate StepChosen(text: string, probs: seq<real>, lasts: seq<int>, i: int)
      reads this
      requires 0 < maxlen ==> 0.0 < total
      requires 1 <= i <= |text| && i < |probs| && i < |lasts|
    {
      var lo := Max(0, i - maxlen);
      && 0 <= lasts[i] < i
      && 0.0 <= probs[i]
      && (forall j :: lo <= j < i ==> Candidate(text, probs, j, i) <= probs[i])
      && if 0.0 < probs[i] then
           && lo <= lasts[i]
           && probs[i] == Candidate(text, probs, lasts[i], i)
           && forall j :: lo <= j < lasts[i] ==> Candidate(text, probs, j, i) < probs[i]
         else
           lasts[i] == 0
    }

    /** The complete DP tables for `text`. */
    ghost predicate DpTable(text: string, probs: seq<real>, lasts: seq<int>)
      reads this
      requires 0 < maxlen ==> 0.0 < total
    {
      && |probs| == |text| + 1 && |lasts| == |text| + 1
      && probs[0] == 1.0 && lasts[0] == 0
      && forall i :: 1 <= i <= |text| ==> StepChosen(text, probs, lasts, i)
    }

    /** An entry stays valid when the tables grow at the end. */
    lemma StepChosenExtend(text: string, probs: seq<real>, lasts: seq<int>, i: int, p: real, k: int)
      requires 0 < maxlen ==> 0.0 < total
      requires 1 <= i <= |text| && i < |probs| && i < |lasts|
      requires StepChosen(text, probs, lasts, i)
      ensures StepChosen(text, probs + [p], lasts + [k], i)
    {
      forall j | Max(0, i - maxlen) <= j < i
        ensures Candidate(text, probs + [p], j, i) == Candidate(text, probs, j, i)
      {
        assert (probs + [p])[j] == probs[j];
      }
    }

    /** Growing the probability table leaves the candidates of earlier
      entries unchanged. */
    lemma CandidateExtend(text: string, probs: seq<real>, p: real, j: int, i: int)
      requires 0.0 < total
      requires 0 <= j < i <= |text| && j < |probs|
      ensures Candidate(text, probs + [p], j, i) == Candidate(text, probs, j, i)
    {
      assert (probs + [p])[j] == probs[j];
    }

    /** The selection bounds every candidate of the window. */
    lemma SelectionBounds(text: string, probs: seq<real>, i: int, lo: int, y: seq<Prob>, p: real, k: int)
      requires 0 < maxlen ==> 0.0 < total
      requires 1 <= i <= |text| && |probs| == i
      requires lo == Max(0, i - maxlen) && |y| == Max(lo, i) - lo
      requires forall t :: 0 <= t < |y| ==> y[t] == Prob(Candidate(text, probs, lo + t, i), lo + t)
      requires IsSelection(y, p, k)
      ensures forall j :: lo <= j < i ==> Candidate(text, probs + [p], j, i) <= p
    {
      forall j | lo <= j < i
        ensures Candidate(text, probs + [p], j, i) <= p
      {
        CandidateExtend(text, probs, p, j, i);
        assert y[j - lo].probK <= p;
      }
    }

    /** A positive selection is the first candidate of the window that
      reaches it. */
    lemma SelectionFirst(text: string, probs: seq<real>, i: int, lo: int, y: seq<Prob>, p: real, k: int)
      requires 0 < maxlen ==> 0.0 < total
      requires 1 <= i <= |text| && |probs| == i
      requires lo == Max(0, i - maxlen) && |y| == Max(lo, i) - lo
      requires forall t :: 0 <= t < |y| ==> y[t] == Prob(Candidate(text, probs, lo + t, i), lo + t)
      requires IsSelection(y, p, k) && 0.0 < p
      ensures lo <= k < i
      ensures Candidate(text, probs + [p], k, i) == p
      ensures forall j :: lo <= j < k ==> Candidate(text, probs + [p], j, i) < p
    {
      var t :| 0 <= t < |y| && y[t] == Prob(p, k) &&
               forall u :: 0 <= u < t ==> y[u].probK < p;
      assert k == lo + t;
      CandidateExtend(text, probs, p, k, i);
      forall j | lo <= j < k
        ensures Candidate(text, probs + [p], j, i) < p
      {
        CandidateExtend(text, probs, p, j, i);
        assert y[j - lo].probK < p;
      }
    }

    /** What MaxProb selects from the candidates of the window of position
      i, listed from the window's start, is a valid entry i. */
    lemma StepFromSelection(text: string, probs: seq<real>, lasts: seq<int>, i: int,
                            lo: int, y: seq<Prob>, p: real, k: int)
      requires 0 < maxlen ==> 0.0 < total
      requires 1 <= i <= |text| && |probs| == i && |lasts| == i
      requires lo == Max(0, i - maxlen) && |y| == Max(lo, i) - lo
      requires forall t :: 0 <= t < |y| ==> y[t] == Prob(Candidate(text, probs, lo + t, i), lo + t)
      requires IsSelection(y, p, k)
      ensures StepChosen(text, probs + [p], lasts + [k], i)
    {
      SelectionBounds(text, probs, i, lo, y, p, k);
      if 0.0 < p {
        SelectionFirst(text, probs, i, lo, y, p, k);
      }
    }

    /** The forward pass: the best path probability and the backpointer
      of every prefix of `text`. The corpus is not modified. */
    method Forward(text: string) returns (probs: seq<real>, lasts: seq<int>)
      requires 0 < maxlen ==> 0.0 < total
      ensures DpTable(text, probs, lasts)
    {
      probs, lasts := [1.0], [0];
      for i := 1 to |text| + 1
        invariant |probs| == i && |lasts| == i
        invariant probs[0] == 1.0 && lasts[0] == 0
        invariant forall i' :: 1 <= i' < i ==> StepChosen(text, probs, lasts, i')
      {
        var lo := Max(0, i - maxlen);
        var y: seq<Prob> := [];
        var j := lo;
        while j < i
          invariant lo <= j <= Max(lo, i)
          invariant |y| == j - lo
          invariant forall t :: 0 <= t < |y| ==> y[t] == Prob(Candidate(text, probs, lo + t, i), lo + t)
        {
          y := y + [Prob(probs[j] * WordProb(text[j..i]), j)];
          j := j + 1;
        }
        var p, k := MaxProb(y);
        StepFromSelection(text, probs, lasts, i, lo, y, p, k);
        forall i' | 1 <= i' < i
          ensures StepChosen(text, probs + [p], lasts + [k], i')
        {
          StepChosenExtend(text, probs, lasts, i', p, k);
        }
        probs, lasts := probs + [p], lasts + [k];
      }
    }

    /** A full table is a backpointer table, and every backpointer is
      either 0 or inside the window of its position. */
    lemma DpTableBackpointers(text: string, probs: seq<real>, lasts: seq<int>)
      requires 0 < maxlen ==> 0.0 < total
      requires DpTable(text, probs, lasts)
      ensures Backpointers(text, lasts)
      ensures forall i :: 1 <= i <= |text| ==> lasts[i] == 0 || Max(0, i - maxlen) <= lasts[i]
    {
      forall i | 1 <= i <= |text|
        ensures 0 <= lasts[i] < i
        ensures lasts[i] == 0 || Max(0, i - maxlen) <= lasts[i]
      {
        assert StepChosen(text, probs, lasts, i);
      }
    }

    /** The backward pass: follows backpointers from the end of `text`
      down to 0, collecting the words last first. */
    method Backtrack(text: string, lasts: seq<int>) returns (rev: seq<string>)
      requires Backpointers(text, lasts)
      ensures Reversed(rev) == Path(text, lasts, |text|)
    {
      rev := [];
      var i := |text|;
      while 0 < i
        invariant 0 <= i <= |text|
        invariant Path(text, lasts, |text|) == Path(text, lasts, i) + Reversed(rev)
        decreases i
      {
        var w := text[lasts[i]..i];
        PathStep(text, lasts, i);
        ReversedSnoc(rev, w);
        assert Path(text, lasts, lasts[i]) + [w] + Reversed(rev) ==
               Path(text, lasts, lasts[i]) + ([w] + Reversed(rev));
        rev := rev + [w];
        i := lasts[i];
      }
    }

    /** The last word of a segmentation of text[..i] is text[j..i] for a
      j in the window of i, and the other words segment text[..j]. */
    lemma SplitLast(ws: seq<string>, text: string, i: int)
      requires 0 <= i <= |text| && IsSegmentation(ws, text[..i]) && ws != []
      ensures var j := i - |ws[|ws| - 1]|;
              && Max(0, i - maxlen) <= j < i
              && ws[|ws| - 1] == text[j..i]
              && IsSegmentation(ws[..|ws| - 1], text[..j])
    {
      var init, w := ws[..|ws| - 1], ws[|ws| - 1];
      assert ws == init + [w];
      ConcatSnoc(init, w);
      assert w in ws;
      var j := i - |w|;
      assert text[..i] == Concat(init) + w;
      assert text[..i][..j] == text[..j];
      assert text[..i][j..] == text[j..i];
      assert forall v :: v in init ==> v in ws;
    }

    /** No segmentation into window-sized words of the prefix text[..i]
      scores more than probs[i]. */
    lemma {:induction false} TableBoundsScore(text: string, probs: seq<real>, lasts: seq<int>,
                                              ws: seq<string>, i: int)
      requires 0.0 < total && CountsNonNegative()
      requires DpTable(text, probs, lasts)
      requires 0 <= i <= |text| && IsSegmentation(ws, text[..i])
      ensures Score(ws) <= probs[i]
      decreases |ws|
    {
      if ws != [] {
        var init, w := ws[..|ws| - 1], ws[|ws| - 1];
        var j := i - |w|;
        SplitLast(ws, text, i);
        TableBoundsScore(text, probs, lasts, init, j);
        assert ws == init + [w];
        WindowBound(text, probs, lasts, j, i);
        ScoreSnoc(init, w);
        ExtendMono(Score(init), probs[j], w);
      }
    }

    /** Every candidate of the window of position i is at most probs[i]. */
    lemma WindowBound(text: string, probs: seq<real>, lasts: seq<int>, j: int, i: int)
      requires 0.0 < total
      requires DpTable(text, probs, lasts)
      requires 1 <= i <= |text| && Max(0, i - maxlen) <= j < i
      ensures Candidate(text, probs, j, i) <= probs[i]
    {
      assert StepChosen(text, probs, lasts, i);
    }

    /** Scoring one more word multiplies by its probability. */
    lemma ScoreSnoc(ws: seq<string>, w: string)
      requires 0.0 < total
      ensures Score(ws + [w]) == Extend(Score(ws), w)
    {
      assert (ws + [w])[..|ws|] == ws;
    }

    /** A segmentation of t followed by a window-sized word w is a
      segmentation of t + w. */
    lemma SegmentationSnoc(ws: seq<string>, t: string, w: string)
      requires IsSegmentation(ws, t) && 0 < |w| <= maxlen
      ensures IsSegmentation(ws + [w], t + w)
    {
      ConcatSnoc(ws, w);
    }

    /** When probs[i] is positive, the backpointer path of text[..i] is a
      segmentation into window-sized words and scores exactly probs[i]. */
    lemma {:induction false} PathAttainsTable(text: string, probs: seq<real>, lasts: seq<int>, i: int)
      requires 0.0 < total && CountsNonNegative()
      requires DpTable(text, probs, lasts)
      requires 0 <= i <= |text| && 0.0 < probs[i]
      ensures Backpointers(text, lasts)
      ensures IsSegmentation(Path(text, lasts, i), text[..i])
      ensures Score(Path(text, lasts, i)) == probs[i]
      decreases i
    {
      DpTableBackpointers(text, probs, lasts);
      if i > 0 {
        LastWordKnown(text, probs, lasts, i);
        PathAttainsTable(text, probs, lasts, lasts[i]);
        PathStepAttains(text, probs, lasts, i);
      }
    }

    /** One backpointer step of PathAttainsTable, apart from the table:
      if the path of text[..lasts[i]] is a segmentation scoring
      probs[lasts[i]] and probs[i] is that times the probability of the
      window-sized word text[lasts[i]..i], the path of text[..i] is a
      segmentation scoring probs[i]. */
    lemma PathStepAttains(text: string, probs: seq<real>, lasts: seq<int>, i: int)
      requires 0.0 < total && Backpointers(text, lasts) && 1 <= i <= |text| && |probs| == |text| + 1
      requires IsSegmentation(Path(text, lasts, lasts[i]), text[..lasts[i]])
      requires Score(Path(text, lasts, lasts[i])) == probs[lasts[i]]
      requires probs[i] == Candidate(text, probs, lasts[i], i)
      requires i - lasts[i] <= maxlen
      ensures IsSegmentation(Path(text, lasts, i), text[..i])
      ensures Score(Path(text, lasts, i)) == probs[i]
    {
      PathAppendSegments(text, lasts, i);
      PathAppendScore(text, lasts, i, Path(text, lasts, i), Path(text, lasts, lasts[i]),
                      text[lasts[i]..i]);
    }

    /** One backpointer step: appending the window-sized word
      text[lasts[i]..i] to a segmentation of text[..lasts[i]] segments
      text[..i]. */
    lemma PathAppendSegments(text: string, lasts: seq<int>, i: int)
      requires Backpointers(text, lasts) && 1 <= i <= |text|
      requires IsSegmentation(Path(text, lasts, lasts[i]), text[..lasts[i]])
      requires i - lasts[i] <= maxlen
      ensures IsSegmentation(Path(text, lasts, i), text[..i])
    {
      var l := lasts[i];
      assert Path(text, lasts, i) == Path(text, lasts, l) + [text[l..i]];
      SegmentationSnoc(Path(text, lasts, l), text[..l], text[l..i]);
      assert text[..l] + text[l..i] == text[..i];
    }

    /** One backpointer step: the path `ws` of text[..i] scores as the
      path `init` of text[..lasts[i]] times the probability of the word
      `w` == text[lasts[i]..i]. */
    lemma PathAppendScore(text: string, lasts: seq<int>, i: int,
                          ws: seq<string>, init: seq<string>, w: string)
      requires 0.0 < total && Backpointers(text, lasts) && 1 <= i <= |text|
      requires ws == Path(text, lasts, i) && init == Path(text, lasts, lasts[i])
      requires w == text[lasts[i]..i]
      ensures Score(ws) == Extend(Score(init), w)
    {
      PathStep(text, lasts, i);
      ScoreSnoc(init, w);
    }

    /** If probs[i] is positive, the last word of the best path of
      text[..i] is a word of the corpus, no longer than `maxlen`, and the
      path before it has a positive probability too. */
    lemma LastWordKnown(text: string, probs: seq<real>, lasts: seq<int>, i: int)
      requires 0.0 < total && CountsNonNegative()
      requires DpTable(text, probs, lasts)
      requires 1 <= i <= |text| && 0.0 < probs[i]
      ensures 0 <= lasts[i] < i
      ensures text[lasts[i]..i] in words && 0 < words[text[lasts[i]..i]]
      ensures 0 < i - lasts[i] <= maxlen
      ensures 0.0 < probs[lasts[i]]
      ensures probs[i] == Candidate(text, probs, lasts[i], i)
    {
      assert StepChosen(text, probs, lasts, i);
      var l := lasts[i];
      assert 0.0 <= probs[l] by {
        if l > 0 { assert StepChosen(text, probs, lasts, l); }
      }
      PositiveFactors(probs[l], WordProb(text[l..i]));
    }

    /** When no candidate of the window is positive, entry i collapses to
      probability 0 and backpointer 0, wherever the window lies. */
    lemma Collapse(text: string, probs: seq<real>, lasts: seq<int>, i: int)
      requires 0 < maxlen ==> 0.0 < total
      requires DpTable(text, probs, lasts)
      requires 1 <= i <= |text|
      requires forall j :: Max(0, i - maxlen) <= j < i ==> Candidate(text, probs, j, i) <= 0.0
      ensures probs[i] == 0.0 && lasts[i] == 0
    {
      assert StepChosen(text, probs, lasts, i);
    }

    /** A segmentation with a positive score uses only words of the
      corpus, each with a positive count. */
    lemma {:induction false} ScorePositiveKnown(ws: seq<string>)
      requires 0.0 < total && CountsNonNegative() && 0.0 < Score(ws)
      ensures forall w :: w in ws ==> w in words && 0 < words[w]
    {
      if ws != [] {
        var init, w := ws[..|ws| - 1], ws[|ws| - 1];
        assert ws == init + [w];
        PositiveFactors(Score(init), WordProb(w));
        ScorePositiveKnown(init);
      }
    }

    /** Segments `text` into the most probable words: forward pass, backward
      pass, then the in-place reversal into text order. The words spell
      the text exactly; with an empty window the whole text is one word;
      and no segmentation into window-sized words scores higher. */
    method Viterbi(text: string) returns (ws: seq<string>)
      requires 0 < maxlen ==> 0.0 < total
      ensures Concat(ws) == text
      ensures forall w :: w in ws ==> 0 < |w|
      ensures text == [] ==> ws == []
      ensures maxlen <= 0 && text != [] ==> ws == [text]
      ensures 0.0 < total && CountsNonNegative() ==>
                forall seg :: IsSegmentation(seg, text) ==> Score(seg) <= Score(ws)
      ensures 0.0 < total && CountsNonNegative() &&
              (exists seg :: IsSegmentation(seg, text) && 0.0 < Score(seg)) ==>
                IsSegmentation(ws, text)
      ensures 0.0 < total && CountsNonNegative() && text != [] &&
              !(exists seg :: IsSegmentation(seg, text) && 0.0 < Score(seg)) ==>
                ws == [text]
      ensures exists probs, lasts :: DpTable(text, probs, lasts) && Backpointers(text, lasts) &&
                                     ws == Path(text, lasts, |text|)
    {
      var probs, lasts := Forward(text);
      DpTableBackpointers(text, probs, lasts);
      var rev := Backtrack(text, lasts);
      var a := new string[|rev|](n requires 0 <= n < |rev| => rev[n]);
      assert a[..] == rev;
      Reverse(a);
      ws := a[..];
      assert ws == Path(text, lasts, |text|);
      PathOfTable(text, probs, lasts);
    }

    /** What the backpointer path of a complete table is: the words spell
      the text; an empty text has no words; with an empty window, or
      when no segmentation scores above 0, the whole text is one word;
      no window-sized segmentation scores more; and when one scores above
      0 the path is a window-sized segmentation itself. */
    lemma PathOfTable(text: string, probs: seq<real>, lasts: seq<int>)
      requires 0 < maxlen ==> 0.0 < total
      requires DpTable(text, probs, lasts) && Backpointers(text, lasts)
      ensures Concat(Path(text, lasts, |text|)) == text
      ensures text == [] ==> Path(text, lasts, |text|) == []
      ensures maxlen <= 0 && text != [] ==> Path(text, lasts, |text|) == [text]
      ensures 0.0 < total && CountsNonNegative() ==>
                forall seg :: IsSegmentation(seg, text) ==> Score(seg) <= Score(Path(text, lasts, |text|))
      ensures 0.0 < total && CountsNonNegative() &&
              (exists seg :: IsSegmentation(seg, text) && 0.0 < Score(seg)) ==>
                IsSegmentation(Path(text, lasts, |text|), text)
      ensures 0.0 < total && CountsNonNegative() && text != [] &&
              !(exists seg :: IsSegmentation(seg, text) && 0.0 < Score(seg)) ==>
                Path(text, lasts, |text|) == [text]
    {
      assert text[..|text|] == text;
      if maxlen <= 0 && text != [] {
        EmptyWindowZero(text, probs, lasts);
        PathCollapses(text, probs, lasts);
      }
      if 0.0 < total && CountsNonNegative() {
        PathOptimal(text, probs, lasts);
        if text != [] && probs[|text|] <= 0.0 {
          PathCollapses(text, probs, lasts);
        }
      }
    }

    /** With an empty window no candidate exists, so the last entry of a
      non-empty text is 0. */
    lemma EmptyWindowZero(text: string, probs: seq<real>, lasts: seq<int>)
      requires maxlen <= 0 && DpTable(text, probs, lasts) && text != []
      ensures probs[|text|] == 0.0
    {
      var n := |text|;
      assert StepChosen(text, probs, lasts, n);
      assert n <= Max(0, n - maxlen);
      assert 0 <= lasts[n] < n;
      assert 0.0 <= probs[n];
      assert !(0.0 < probs[n]);
    }

    /** When the last entry is not positive its backpointer is 0, so the
      path is the whole text as one word. */
    lemma PathCollapses(text: string, probs: seq<real>, lasts: seq<int>)
      requires 0 < maxlen ==> 0.0 < total
      requires DpTable(text, probs, lasts) && Backpointers(text, lasts)
      requires text != [] && probs[|text|] <= 0.0
      ensures Path(text, lasts, |text|) == [text]
    {
      var n := |text|;
      assert StepChosen(text, probs, lasts, n);
      PathStep(text, lasts, n);
      assert Path(text, lasts, n) == Path(text, lasts, 0) + [text[0..n]];
      assert text[0..n] == text;
    }

    /** The path of the whole text is optimal among window-sized
      segmentations; when some segmentation scores above 0, the path is
      one; and a positive last entry is the score of some segmentation. */
    lemma PathOptimal(text: string, probs: seq<real>, lasts: seq<int>)
      requires 0.0 < total && CountsNonNegative()
      requires DpTable(text, probs, lasts) && Backpointers(text, lasts)
      ensures forall seg :: IsSegmentation(seg, text) ==> Score(seg) <= Score(Path(text, lasts, |text|))
      ensures (exists seg :: IsSegmentation(seg, text) && 0.0 < Score(seg)) ==>
                IsSegmentation(Path(text, lasts, |text|), text)
      ensures 0.0 < probs[|text|] ==> exists seg :: IsSegmentation(seg, text) && 0.0 < Score(seg)
    {
      var n := |text|;
      assert text[..n] == text;
      if 0.0 < probs[n] {
        PathAttainsTable(text, probs, lasts, n);
        assert IsSegmentation(Path(text, lasts, n), text) && 0.0 < Score(Path(text, lasts, n));
      }
      forall seg | IsSegmentation(seg, text)
        ensures Score(seg) <= Score(Path(text, lasts, n))
      {
        TableBoundsScore(text, probs, lasts, seg, n);
      }
      if exists seg :: IsSegmentation(seg, text) && 0.0 < Score(seg) {
        var seg :| IsSegmentation(seg, text) && 0.0 < Score(seg);
        TableBoundsScore(text, probs, lasts, seg, n);
      }
    }
  }

  /** Multiplying both sides by a non-negative factor keeps the order. */
  lemma MulMono(a: real, b: real, c: real)
    requires a <= b && 0.0 <= c
    ensures a * c <= b * c
  {
  }

  /** A product of two non-negative reals is positive only if both are. */
  lemma PositiveFactors(a: real, b: real)
    requires 0.0 <= a && 0.0 <= b && 0.0 < a * b
    ensures 0.0 < a && 0.0 < b
  {
  }
}
