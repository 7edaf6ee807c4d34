# viterbi-golang: a unigram word segmenter

`viterbi.go` splits a string with no spaces, such as
`"ihaveadogandthedogiscool"`, into the most probable sequence of English
words. A corpus of lower-case tokens gives each word a unigram
probability: its count divided by the number of tokens. The Viterbi
dynamic programme then scores every prefix of the text:

- `probs[i]` is the best path probability of the prefix `text[0:i]`.
- `lasts[i]` is where the last word of that best path starts.
- The candidates for position `i` are the positions in the window
  `max(0, i-maxlen) .. i-1`. A running maximum picks among them. It starts
  at `(0.0, 0)` and is replaced only by a strictly greater probability.

A backward walk over `lasts` collects the words, last word first. An
in-place reversal then puts them in text order.

The Dafny model has five modules:

- `Selection`: `max`, the `prob` record and `maxprob`.
- `Reversal`: the in-place `reverse` on an array, checked against a
  reference `Reversed` function.
- `Segmentation`: concatenation of words, and the list of words that a
  backpointer table describes (`Path`).
- `Unigram`: the class `Corpus`, with the fields `words`, `maxlen` and
  `total`. It holds:
  - `wordfreq` and `wordprob`;
  - the token part of `loadwords`;
  - `viterbi`, split into its forward pass (`Forward`), its backward walk
    (`Backtrack`) and the driver (`Viterbi`), which does the reversal.
- `Examples`: the cases of `viterbi_test.go`, plus a small end-to-end
  segmentation on a hand-built corpus.

Probabilities are exact `real`s.

Besides what the code states step by step, the model proves that the
segmenter is optimal. Define a segmentation's score as the product of its
words' probabilities. Then no segmentation of the text into words of
length 1 to `maxlen` scores more than the result of `Viterbi`. When some
segmentation has a positive score, the result is itself such a
segmentation.

Two edge cases of the code get an explicit choice in the model:

- **`wordprob` on an empty corpus.** The code divides 0 by 0, which is NaN
  in `float64`. The model requires a positive total instead. This suffices
  for `Viterbi`, because a positive `maxlen` implies at least one token,
  and with `maxlen <= 0` the window is empty, so `wordprob` is never
  called.
- **`loadwords` with no tokens.** The code stops the program
  (`log.Fatal`) when the corpus yields no words. The model returns
  `ok == false` and leaves the corpus unchanged. `wordfreq` itself accepts
  an empty list and gives an empty table with total 0.

The test file calls `newProb`, `maxProb`, `newCorpus`, `wordFreq` and
`wordProb`, which `viterbi.go` spells in lower case. The examples treat
them as the same functions.

## Model

| member | source | states |
|---|---|---|
| Selection.Max | viterbi.go:43-49 | the result is at least both arguments and is one of them |
| Selection.MaxProb | viterbi.go:76-90 | the scan returns the maximum of 0 and every candidate probability. When that is positive, k belongs to the first candidate that reaches it; otherwise k is 0. An empty list gives (0.0, 0) |
| Reversal.Reverse | viterbi.go:93-98 | after the two-index swap loop, the array holds the reversal of its old contents |
| Reversal.ReversedAt | viterbi.go:93-98 | the reversal keeps the length, and position k holds old position len-1-k |
| Reversal.ReversedTwice | viterbi.go:93-98 | reversing twice gives back the original sequence |
| Reversal.ReversedCons | viterbi.go:93-98 | prepending an element to a sequence appends it to the reversal |
| Segmentation.ConcatLength | viterbi.go:160-163 | helper of Examples.LastOfAa: non-empty words spell a text at least as long as the number of words |
| Segmentation.Path | viterbi.go:160-163 | following the backpointers from i down to 0 gives non-empty words that spell exactly text[0:i] |
| Unigram.FrequenciesSnoc | viterbi.go:56-64 | counting one more token bumps its existing entry by 1 or adds it with count 1 (the two branches of the loop) |
| Unigram.FrequenciesKeys | viterbi.go:52-68 | the table's keys are exactly the distinct tokens, and each count is between 1 and the number of tokens |
| Unigram.FrequenciesOrderIndependent | viterbi.go:130-132 | permuting the tokens (as sort.Strings does) gives the same table |
| Unigram.SumCountsRemove | viterbi.go:52-68 | helper of Unigram.FrequenciesSum: the sum of a table's counts does not depend on which entry is taken out first |
| Unigram.SumCountsBump | viterbi.go:57-59 | helper of Unigram.FrequenciesSum: bumping an existing count by 1 adds 1 to the sum of the counts |
| Unigram.SumCountsAdd | viterbi.go:60-62 | helper of Unigram.FrequenciesSum: adding a new word with count 1 adds 1 to the sum of the counts |
| Unigram.FrequenciesSum | viterbi.go:55-67 | the counts add up to the number of tokens, which is the total |
| Unigram.MaxLen | viterbi.go:119-128 | the longest-token loop yields a length that is non-negative, at least every token's length and reached by some token, and 0 when there are no tokens |
| Unigram.MaxLenOrderIndependent | viterbi.go:123-130 | permuting the tokens gives the same longest length |
| Unigram.Corpus.constructor | viterbi.go:30-32 | a new corpus has an empty table, maxlen 0 and total 0 |
| Unigram.Corpus.WordFreq | viterbi.go:52-68 | the table becomes the occurrence count of every distinct token, the total becomes the number of tokens, and maxlen is unchanged |
| Unigram.Corpus.WordProb | viterbi.go:71-73 | an absent word has probability 0. For a present word, the probability times the total is its count. The probability is positive exactly for words with a positive count, and non-negative when no count is negative |
| Unigram.Corpus.WordProbOfTokens | viterbi.go:71-73 | after training, a word's probability is its number of occurrences divided by the number of tokens |
| Unigram.Corpus.LoadWords | viterbi.go:110-133 | with at least one token, the corpus holds the counts, the total and the longest length of the tokens. With none, it reports failure and leaves the corpus unchanged |
| Unigram.Corpus.TrainedIsConsistent | viterbi.go:52-68 | every count in a trained corpus is positive, maxlen is non-negative, and a positive maxlen implies a positive total |
| Unigram.Corpus.TrainedOrderIndependent | viterbi.go:130-133 | training on a permutation of the tokens gives the same corpus |
| Unigram.Corpus.Extend | viterbi.go:146 | a path probability times a word probability is non-negative when both are |
| Unigram.Corpus.ExtendMono | viterbi.go:146 | multiplying two path probabilities by the same word probability keeps their order |
| Unigram.Corpus.Score | viterbi.go:146 | the product of word probabilities is non-negative when no count is negative |
| Unigram.Corpus.StepChosenExtend | viterbi.go:151-152 | appending new entries to the tables leaves every earlier entry valid |
| Unigram.Corpus.CandidateExtend | viterbi.go:144-152 | appending probs[i] does not change the candidate probs[j]*wordprob(text[j:i]) of any earlier j |
| Unigram.Corpus.SelectionBounds | viterbi.go:144-152 | the probability maxprob picks from the window is at least every candidate of the window |
| Unigram.Corpus.SelectionFirst | viterbi.go:144-152 | a positive pick comes from a j inside the window, equals that candidate, and every earlier candidate is strictly smaller, so ties go to the first |
| Unigram.Corpus.StepFromSelection | viterbi.go:144-152 | the candidate list built over the window, passed through maxprob, yields a valid table entry for position i |
| Unigram.Corpus.Forward | viterbi.go:138-153 | both tables have length len(text)+1, with probs[0] = 1 and lasts[0] = 0. Each later probs[i] is the maximum of 0 and every window candidate probs[j]*wordprob(text[j:i]). When positive, lasts[i] is the first candidate reaching it; otherwise lasts[i] is 0. The corpus is not modified |
| Unigram.Corpus.DpTableBackpointers | viterbi.go:143-153 | each backpointer satisfies 0 <= lasts[i] < i and is 0 or inside the window max(0, i-maxlen) .. i-1, so the backward walk terminates |
| Unigram.Corpus.Backtrack | viterbi.go:155-163 | the words collected from len(text) down to 0 are the backpointer path in reverse order |
| Unigram.Corpus.SplitLast | viterbi.go:145-146 | the last word of any window-sized segmentation of text[0:i] is text[j:i] for a j in the window, and the rest segments text[0:j] |
| Unigram.Corpus.TableBoundsScore | viterbi.go:143-152 | no segmentation of text[0:i] into window-sized words scores more than probs[i] |
| Unigram.Corpus.WindowBound | viterbi.go:143-152 | every candidate probs[j]*wordprob(text[j:i]) of the window is at most probs[i] |
| Unigram.Corpus.ScoreSnoc | viterbi.go:146 | appending a word multiplies the score by that word's probability |
| Unigram.Corpus.SegmentationSnoc | viterbi.go:145-146 | a segmentation followed by one window-sized word segments the longer text |
| Unigram.Corpus.PathAttainsTable | viterbi.go:143-163 | when probs[i] is positive, the backpointer path of text[0:i] is a window-sized segmentation that scores exactly probs[i] |
| Unigram.Corpus.PathStepAttains | viterbi.go:143-163 | if the path to lasts[i] is a segmentation scoring probs[lasts[i]] and probs[i] is that candidate, the path to i is a segmentation scoring probs[i] |
| Unigram.Corpus.PathAppendSegments | viterbi.go:160-163 | one backward step extends a segmentation of text[0:lasts[i]] to one of text[0:i] |
| Unigram.Corpus.PathAppendScore | viterbi.go:160-163 | one backward step multiplies the path's score by the probability of the word text[lasts[i]:i] |
| Unigram.Corpus.LastWordKnown | viterbi.go:143-152 | when probs[i] is positive, the last word text[lasts[i]:i] has a positive count and length at most maxlen, and probs[lasts[i]] is positive |
| Unigram.Corpus.Collapse | viterbi.go:82-89 | when no candidate in the window is positive, probs[i] = 0 and lasts[i] = 0 |
| Unigram.Corpus.ScorePositiveKnown | viterbi.go:146 | a segmentation with a positive score uses only corpus words with positive counts |
| Unigram.Corpus.Viterbi | viterbi.go:137-167 | the result is the backpointer path of a table that Forward's contract fixes, so ties go to the first candidate. The words are non-empty and spell the text exactly. An empty text gives no words; with maxlen <= 0 a non-empty text comes back as one word, and so does a text with no positive-scoring segmentation. No window-sized segmentation scores more than the result, and the result is one whenever some segmentation has a positive score |
| Unigram.Corpus.PathOfTable | viterbi.go:137-167 | the backpointer path of any complete table spells the text, is empty for an empty text, is the whole text as one word with an empty window or when no segmentation scores above 0, is never outscored by a window-sized segmentation, and is one itself when one scores above 0 |
| Unigram.Corpus.EmptyWindowZero | viterbi.go:143-152 | with maxlen 0 the window is empty, so the last table entry of a non-empty text is 0 |
| Unigram.Corpus.PathCollapses | viterbi.go:143-163 | when the last table entry is not positive, its backpointer is 0 and the path is the whole text as one word |
| Unigram.Corpus.PathOptimal | viterbi.go:143-163 | no window-sized segmentation outscores the path; the path is a segmentation when one scores above 0; a positive last entry implies such a segmentation |
| Unigram.MulMono | viterbi.go:146 | helper of Unigram.Corpus.ExtendMono: multiplying by a non-negative probability keeps the order of path probabilities |
| Unigram.PositiveFactors | viterbi.go:143-152 | helper of Unigram.Corpus.LastWordKnown: a product of two non-negative probabilities is positive only if both factors are |
| Examples.MaxExample | viterbi_test.go:16-23 | max(0, 1) is 1 |
| Examples.MaxProbExample | viterbi_test.go:25-36 | maxprob of (0.999, 1) and (0.111, 2) is (0.999, 1) |
| Examples.ReverseExample | viterbi_test.go:38-47 | reversing [aa, bb, cc, dd] gives [dd, cc, bb, aa] |
| Examples.TokensCounts | viterbi_test.go:51 | among aa, bb, ccc, aa, aa, the word aa occurs 3 times, bb and ccc once each, and no other word occurs |
| Examples.TokensFrequencies | viterbi_test.go:49-58 | the table of those tokens is {aa: 3, bb: 1, ccc: 1} |
| Examples.WordFreqExample | viterbi_test.go:49-58 | after wordfreq on the five tokens, words[aa] is 3 |
| Examples.WordProbExample | viterbi_test.go:60-69 | after wordfreq on the five tokens, wordprob(aa) is 0.6 |
| Examples.UntrainedExample | viterbi.go:143-166 | a corpus with no tokens segments xyz into the single word xyz |
| Examples.LastOfAabb | viterbi_test.go:71-101 | helper of Examples.SegmentExample: spelled with aa, bb and ccc, aabb must end in bb |
| Examples.LastOfAa | viterbi_test.go:71-101 | helper of Examples.SegmentExample: spelled with aa, bb and ccc, aa is the single word aa |
| Examples.OnlySpelling | viterbi_test.go:71-101 | helper of Examples.SegmentExample: aa followed by bb is the only way to spell aabb with aa, bb and ccc |
| Examples.TrainedOnTokens | viterbi_test.go:87-95 | the corpus trained on the five tokens has table {aa: 3, bb: 1, ccc: 1}, total 5 and maxlen 3 |
| Examples.AabbScores | viterbi.go:146 | in that corpus, aa followed by bb segments aabb with score 0.6 * 0.2 |
| Examples.BestOfAabb | viterbi_test.go:71-101 | helper of Examples.SegmentExample: in the trained corpus, a result that no segmentation of aabb outscores and that is a segmentation when one scores above 0 is aa, bb |
| Examples.SegmentExample | viterbi_test.go:71-101 | trained on the five tokens, viterbi splits aabb into aa and bb |
| Examples.NoSpellingOfXyz | viterbi_test.go:71-101 | helper of Examples.UnknownTextExample: every spelling of xyz uses a word other than aa, bb and ccc |
| Examples.UnknownTextExample | viterbi.go:143-166 | trained on the five tokens, viterbi returns xyz, which no known word spells, as the single word xyz |

## Left out

- Floating point: `float64` rounding, underflow of long products to 0 (which in Go can trigger the collapse rule early) and NaN are not modelled. Probabilities are exact reals.
- Unigram.Corpus.WordProb: requires a positive total, where Go computes 0/0 = NaN for an empty corpus.
- File and regexp I/O in `loadwords` (viterbi.go:106-117): reading the corpus file and extracting `[a-z]+` tokens. The tokens are a parameter of `LoadWords`. Stopping the program with `log.Fatal` when there are no tokens becomes the result `ok == false`.
- `sort.Strings` in `loadwords` (viterbi.go:130) is not modelled. Its effect is covered by the order-independence lemmas, which show that training does not depend on token order.
- `main` (viterbi.go:169-173) and the `String` formatter for `prob` (viterbi.go:100-103) only print.
- `newprob` (viterbi.go:35-40) returns a pointer to a fresh record. The model uses the `Prob` value directly, because no candidate is modified after creation.
- Byte slicing: Go's `text[j:i]` slices bytes. The model slices characters, which agrees for the ASCII text that the `[a-z]+` tokenizer implies.
- Aliasing of `reverse`: the Go function reverses its argument slice in place and returns it. The model copies the collected words into a fresh array and reverses that array in place.
- The newspaper-corpus test (viterbi_test.go:71-101) depends on regexp tokenisation and lower-casing of a long literal. `Examples.SegmentExample` states the same steps on a hand-built corpus instead.
