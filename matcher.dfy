/**
 * The sliding-window matcher `find_closest_match`: every window of the page
 * text as long as the needle is scored against the needle, and the first
 * window with the strictly highest positive score wins.
 *
 * The similarity scorer (`fuzz.ratio`) is a foreign library; it is a parameter
 * here, known only to return a score between 0 and 100.
 */
module Matcher {
  import opened Wrappers

  /** A similarity score as `fuzz.ratio` returns it. */
  type Ratio = r: int | 0 <= r <= 100

  /** The scorer, called as `ratio(segment, needle)`. */
  type Scorer = (string, string) -> Ratio

  /** How many windows `range(len(haystack) - len(needle) + 1)` visits
      (none when the needle is longer than the haystack). */
  function WindowCount(haystack: string, needle: string): (n: nat)
    ensures n > 0 <==> |needle| <= |haystack|
    ensures n > 0 ==> n - 1 + |needle| == |haystack|
  {
    if |needle| <= |haystack| then |haystack| - |needle| + 1 else 0
  }

  /** The window `haystack[i:i + len(needle)]`. */
  function Window(haystack: string, needle: string, i: nat): (w: string)
    requires i < WindowCount(haystack, needle)
    ensures |w| == |needle|
  {
    haystack[i..i + |needle|]
  }

  /** The score of window `i`. */
  function ScoreAt(haystack: string, needle: string, ratio: Scorer, i: nat): (score: Ratio)
    requires i < WindowCount(haystack, needle)
  {
    ratio(Window(haystack, needle, i), needle)
  }

  /** `(best_score, best_index)` after the first `k` iterations of the loop. */
  function Scan(haystack: string, needle: string, ratio: Scorer, k: nat): (best: (int, int))
    requires k <= WindowCount(haystack, needle)
    ensures -1 <= best.1 < k
    ensures best.1 == -1 ==> best.0 == 0 && forall j :: 0 <= j < k ==> ScoreAt(haystack, needle, ratio, j) == 0
    ensures best.1 >= 0 ==> best.0 == ScoreAt(haystack, needle, ratio, best.1) > 0
    ensures best.1 >= 0 ==> forall j :: 0 <= j < k ==> ScoreAt(haystack, needle, ratio, j) <= best.0
    ensures best.1 >= 0 ==> forall j :: 0 <= j < best.1 ==> ScoreAt(haystack, needle, ratio, j) < best.0
  {
    if k == 0 then (0, -1)
    else
      var prev := Scan(haystack, needle, ratio, k - 1);
      var score := ScoreAt(haystack, needle, ratio, k - 1);
      if score > prev.0 then (score, k - 1) else prev
  }

  /** The index `find_closest_match` returns. */
  function ClosestIndex(haystack: string, needle: string, ratio: Scorer): (index: int)
    ensures -1 <= index < WindowCount(haystack, needle)
  {
    Scan(haystack, needle, ratio, WindowCount(haystack, needle)).1
  }

  /** `index` is the first window with the highest score, and that score is positive. */
  ghost predicate IsFirstBest(haystack: string, needle: string, ratio: Scorer, index: int)
  {
    && 0 <= index < WindowCount(haystack, needle)
    && ScoreAt(haystack, needle, ratio, index) > 0
    && (forall j :: 0 <= j < WindowCount(haystack, needle) ==>
          ScoreAt(haystack, needle, ratio, j) <= ScoreAt(haystack, needle, ratio, index))
    && (forall j :: 0 <= j < index ==>
          ScoreAt(haystack, needle, ratio, j) < ScoreAt(haystack, needle, ratio, index))
  }

  /** The result is -1 exactly when there is no window or every window scores 0;
      otherwise it is the first window with the highest score. */
  lemma ClosestIndexSpec(haystack: string, needle: string, ratio: Scorer)
    ensures var index := ClosestIndex(haystack, needle, ratio);
      && (index == -1 <==> forall j :: 0 <= j < WindowCount(haystack, needle) ==> ScoreAt(haystack, needle, ratio, j) == 0)
      && (index != -1 ==> IsFirstBest(haystack, needle, ratio, index))
  {
  }

  /** There is only one first best window: any index with that property is the result. */
  lemma ClosestIndexUnique(haystack: string, needle: string, ratio: Scorer, index: int)
    requires IsFirstBest(haystack, needle, ratio, index)
    ensures ClosestIndex(haystack, needle, ratio) == index
  {
    var found := ClosestIndex(haystack, needle, ratio);
    ClosestIndexSpec(haystack, needle, ratio);
    assert ScoreAt(haystack, needle, ratio, index) > 0;
    assert found != -1;
    assert !(found < index) && !(index < found);
  }

  /** A needle longer than the haystack never matches. */
  lemma LongNeedleNoMatch(haystack: string, needle: string, ratio: Scorer)
    requires |haystack| < |needle|
    ensures ClosestIndex(haystack, needle, ratio) == -1
  {
  }

  /** `find_closest_match(haystack, needle)`: returns `(best_match, best_index)`,
      the index `ClosestIndex` describes (so -1 exactly when every window scores
      0, by `ClosestIndexSpec`) and the window found there. */
  method FindClosestMatch(haystack: string, needle: string, ratio: Scorer)
    returns (bestMatch: Option<string>, bestIndex: int)
    ensures bestIndex == ClosestIndex(haystack, needle, ratio)
    ensures bestIndex == -1 ==> bestMatch == None
    ensures bestIndex != -1 ==> IsFirstBest(haystack, needle, ratio, bestIndex)
    ensures bestIndex != -1 ==> 0 <= bestIndex <= |haystack| - |needle| &&
                                bestMatch == Some(haystack[bestIndex..bestIndex + |needle|])
  {
    var needleLength := |needle|;
    bestMatch := None;
    var bestScore := 0;
    bestIndex := -1;
    for i := 0 to WindowCount(haystack, needle)
      invariant bestScore == Scan(haystack, needle, ratio, i).0 && bestIndex == Scan(haystack, needle, ratio, i).1
      invariant bestMatch == if bestIndex == -1 then None else Some(Window(haystack, needle, bestIndex))
    {
      var segment := haystack[i..i + needleLength];
      var score := ratio(segment, needle);
      assert segment == Window(haystack, needle, i) && score == ScoreAt(haystack, needle, ratio, i);
      if score > bestScore {
        bestScore := score;
        bestMatch := Some(segment);
        bestIndex := i;
      }
    }
    ClosestIndexSpec(haystack, needle, ratio);
  }
}
