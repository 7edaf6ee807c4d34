/** The cases of the repository's unit tests, and two small segmentation
    scenarios, stated as methods whose contracts fix their results. */
module Examples {
  import opened Selection
  import opened Reversal
  import opened Segmentation
  import opened Unigram

  const TOKENS: seq<string> := ["aa", "bb", "ccc", "aa", "aa"]

  /** The larger of 0 and 1 is 1. */
  method MaxExample() returns (r: int)
    ensures r == 1
  {
    r := Max(0, 1);
  }

  /** Of (0.999, 1) and (0.111, 2) the first is selected. */
  method MaxProbExample() returns (probK: real, k: int)
    ensures probK == 0.999 && k == 1
  {
    var ps := [Prob(0.999, 1), Prob(0.111, 2)];
    probK, k := MaxProb(ps);
    assert ps[0].probK <= probK;
  }

  /** [aa, bb, cc, dd] reversed in place is [dd, cc, bb, aa]. */
  method ReverseExample() returns (r: seq<string>)
    ensures r == ["dd", "cc", "bb", "aa"]
  {
    var a := new string[4];
    a[0], a[1], a[2], a[3] := "aa", "bb", "cc", "dd";
    ghost var before := a[..];
    assert before == ["aa", "bb", "cc", "dd"];
    Reverse(a);
    r := a[..];
    ReversedAt(before, 0);
    ReversedAt(before, 1);
    ReversedAt(before, 2);
    ReversedAt(before, 3);
  }

  /** How often each of the test tokens occurs. */
  lemma TokensCounts()
    ensures multiset(TOKENS)["aa"] == 3
    ensures multiset(TOKENS)["bb"] == 1 && multiset(TOKENS)["ccc"] == 1
    ensures forall x :: x in TOKENS <==> x == "aa" || x == "bb" || x == "ccc"
  {
    assert TOKENS == ["aa", "bb", "ccc", "aa"] + ["aa"];
    assert ["aa", "bb", "ccc", "aa"] == ["aa", "bb", "ccc"] + ["aa"];
  }

  /** The table of the five test tokens. */
  lemma TokensFrequencies()
    ensures Frequencies(TOKENS) == map["aa" := 3, "bb" := 1, "ccc" := 1]
  {
    TokensCounts();
  }

  /** "aa" occurs three times among the five test tokens. */
  method WordFreqExample() returns (count: int)
    ensures count == 3
  {
    var c := new Corpus();
    c.WordFreq(TOKENS);
    TokensFrequencies();
    count := c.words["aa"];
  }

  /** ... so its probability is 3 / 5. */
  method WordProbExample() returns (p: real)
    ensures p == 0.6
  {
    var c := new Corpus();
    c.WordFreq(TOKENS);
    TokensFrequencies();
    p := c.WordProb("aa");
  }

  /** An untrained corpus has an empty window: the whole text is one word. */
  method UntrainedExample() returns (ws: seq<string>)
    ensures ws == ["xyz"]
  {
    var c := new Corpus();
    c.WordFreq([]);
    ws := c.Viterbi("xyz");
  }

  /** The last of a list of words from aa, bb and ccc that spells "aabb"
      is bb, and the others spell "aa". */
  lemma LastOfAabb(ws: seq<string>)
    requires Concat(ws) == "aabb"
    requires forall w :: w in ws ==> w == "aa" || w == "bb" || w == "ccc"
    ensures ws != [] && ws[|ws| - 1] == "bb" && Concat(ws[..|ws| - 1]) == "aa"
  {
    assert ws != [];
    var init, last := ws[..|ws| - 1], ws[|ws| - 1];
    assert Concat(init) + last == "aabb";
    assert last in ws;
    assert last == "aabb"[4 - |last|..];
  }

  /** The last of a list of words from aa, bb and ccc that spells "aa"
      is aa, and no word comes before it. */
  lemma LastOfAa(ws: seq<string>)
    requires Concat(ws) == "aa"
    requires forall w :: w in ws ==> w == "aa" || w == "bb" || w == "ccc"
    ensures ws == ["aa"]
  {
    assert ws != [];
    var init, last := ws[..|ws| - 1], ws[|ws| - 1];
    assert ws == init + [last];
    assert Concat(init) + last == "aa";
    assert last in ws;
    assert last == "aa"[2 - |last|..];
    assert forall w :: w in init ==> w in ws;
    ConcatLength(init);
  }

  /** The only way to spell "aabb" with the words aa, bb and ccc. */
  lemma OnlySpelling(ws: seq<string>)
    requires Concat(ws) == "aabb"
    requires forall w :: w in ws ==> w == "aa" || w == "bb" || w == "ccc"
    ensures ws == ["aa", "bb"]
  {
    LastOfAabb(ws);
    var init := ws[..|ws| - 1];
    assert forall w :: w in init ==> w in ws;
    LastOfAa(init);
    assert ws == init + [ws[|ws| - 1]];
  }

  /** The corpus trained on the five test tokens. */
  lemma TrainedOnTokens(c: Corpus)
    requires c.Trained(TOKENS)
    ensures c.words == map["aa" := 3, "bb" := 1, "ccc" := 1]
    ensures c.total == 5.0 && c.maxlen == 3
  {
    TokensFrequencies();
    var m := MaxLen(TOKENS);
    assert forall w :: w in TOKENS ==> |w| <= 3;
    assert "ccc" in TOKENS;
  }

  /** In that corpus aa | bb segments "aabb" and scores 0.6 * 0.2. */
  lemma AabbScores(c: Corpus)
    requires c.words == map["aa" := 3, "bb" := 1, "ccc" := 1]
    requires c.total == 5.0 && c.maxlen == 3
    ensures c.IsSegmentation(["aa", "bb"], "aabb")
    ensures c.Score(["aa", "bb"]) == 0.6 * 0.2
  {
    ConcatSnoc(["aa"], "bb");
    ConcatSnoc([], "aa");
    assert [] + ["aa"] == ["aa"];
    assert ["aa"] + ["bb"] == ["aa", "bb"];
    c.ScoreSnoc(["aa"], "bb");
    c.ScoreSnoc([], "aa");
  }

  /** In that corpus, a result that no window-sized segmentation of
      "aabb" outscores, and that is one itself when one scores above 0, is
      aa | bb. */
  lemma BestOfAabb(c: Corpus, ws: seq<string>)
    requires c.words == map["aa" := 3, "bb" := 1, "ccc" := 1]
    requires c.total == 5.0 && c.maxlen == 3
    requires forall seg :: c.IsSegmentation(seg, "aabb") ==> c.Score(seg) <= c.Score(ws)
    requires (exists seg :: c.IsSegmentation(seg, "aabb") && 0.0 < c.Score(seg)) ==>
               c.IsSegmentation(ws, "aabb")
    ensures ws == ["aa", "bb"]
  {
    AabbScores(c);
    assert c.IsSegmentation(ws, "aabb") && 0.0 < c.Score(ws);
    assert c.CountsNonNegative();
    c.ScorePositiveKnown(ws);
    OnlySpelling(ws);
  }

  /** Trained on the five test tokens, "aabb" splits into aa | bb: the
      only segmentation into known words, scoring 0.6 * 0.2. */
  method SegmentExample() returns (ws: seq<string>)
    ensures ws == ["aa", "bb"]
  {
    var c := new Corpus();
    var ok := c.LoadWords(TOKENS);
    TrainedOnTokens(c);
    c.TrainedIsConsistent(TOKENS);
    ws := c.Viterbi("aabb");
    BestOfAabb(c, ws);
  }

  /** No list of the words aa, bb and ccc spells "xyz": some word of any
      spelling is another one. */
  lemma NoSpellingOfXyz(ws: seq<string>)
    requires Concat(ws) == "xyz"
    ensures exists w :: w in ws && w != "aa" && w != "bb" && w != "ccc"
  {
    assert ws != [];
    var init, last := ws[..|ws| - 1], ws[|ws| - 1];
    assert Concat(init) + last == "xyz";
    assert last in ws;
    assert last == "xyz"[3 - |last|..];
  }

  /** Trained on the five test tokens, "xyz" has no segmentation with a
      positive score, so it comes back as the single word "xyz". */
  method UnknownTextExample() returns (ws: seq<string>)
    ensures ws == ["xyz"]
  {
    var c := new Corpus();
    var ok := c.LoadWords(TOKENS);
    TrainedOnTokens(c);
    c.TrainedIsConsistent(TOKENS);
    forall seg | c.IsSegmentation(seg, "xyz") && 0.0 < c.Score(seg)
      ensures false
    {
      c.ScorePositiveKnown(seg);
      NoSpellingOfXyz(seg);
    }
    ws := c.Viterbi("xyz");
  }
}
