/** The free helpers the Viterbi step uses to pick the best candidate:
    the integer maximum and the first-strict-maximum selection over
    (probability, split index) candidates. */
module Selection {

  /** The larger of two integers (the left one only when strictly larger). */
  function Max(x: int, y: int): (r: int)
    ensures x <= r && y <= r
    ensures r == x || r == y
  {
    if x > y then x else y
  }

  /** One DP candidate: the path probability `probK` of a segmentation
      whose last word starts at position `k`. */
  datatype Prob = Prob(probK: real, k: int)

  /** (probK, k) is what a first-strict-maximum scan of `ps` selects:
      probK is the maximum of 0 and every candidate; when it is positive,
      (probK, k) is the FIRST candidate reaching it, otherwise k is 0. */
  ghost predicate IsSelection(ps: seq<Prob>, probK: real, k: int)
  {
    && 0.0 <= probK
    && (forall t :: 0 <= t < |ps| ==> ps[t].probK <= probK)
    && (probK == 0.0 ==> k == 0)
    && (0.0 < probK ==>
          exists t :: 0 <= t < |ps| && ps[t] == Prob(probK, k) &&
                      forall u :: 0 <= u < t ==> ps[u].probK < probK)
  }

  /** The running maximum starts at (0.0, 0) and is replaced only by a
      strictly greater probability. */
  method MaxProb(ps: seq<Prob>) returns (probK: real, k: int)
    ensures IsSelection(ps, probK, k)
    ensures ps == [] ==> probK == 0.0 && k == 0
  {
    probK, k := 0.0, 0;
    for n := 0 to |ps|
      invariant 0.0 <= probK
      invariant forall t :: 0 <= t < n ==> ps[t].probK <= probK
      invariant probK == 0.0 ==> k == 0
      invariant 0.0 < probK ==>
                  exists t :: 0 <= t < n && ps[t] == Prob(probK, k) &&
                              forall u :: 0 <= u < t ==> ps[u].probK < probK
    {
      if ps[n].probK > probK {
        probK, k := ps[n].probK, ps[n].k;
      }
    }
  }
}
