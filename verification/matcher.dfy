/** The record matcher: the chain of page filters a page must pass to be written out. */
module Matcher {
  import opened Options
  import opened Strings
  import opened Pages

  /** The filters, named after the predicates they model. */
  datatype Check = IsMovie | IsComedy | IsHighlyRated

  const MovieType := "video.movie"
  const ComedyGenre := "Comedy"
  const RatingThreshold: real := 7.0

  /** The filters in the order the pipeline applies them. */
  const Chain := [IsMovie, IsComedy, IsHighlyRated]

  /**
   * A page is a movie when its `og:type` content is exactly `video.movie`, a comedy when its
   * subtext contains `Comedy` at some position, and highly rated when its rating is a number above 7.
   */
  predicate Holds(c: Check, p: Page) {
    match c
    case IsMovie => p.ogType == Some(MovieType)
    case IsComedy => Includes(p.subtext, ComedyGenre)
    case IsHighlyRated => p.rating.Some? && p.rating.value > RatingThreshold
  }

  /** Which filters were evaluated, in order, and whether the page got through all of them. */
  datatype Evaluation = Evaluation(evaluated: seq<Check>, matched: bool)

  /**
   * Applies `checks` in order, stopping at the first that fails: the page matches iff
   * every check holds, the evaluated checks are a prefix of `checks`, every evaluated
   * check but the last held, and on a rejection the last one evaluated is the one that failed.
   */
  function Evaluate(checks: seq<Check>, p: Page): (e: Evaluation)
    ensures e.matched <==> forall k :: 0 <= k < |checks| ==> Holds(checks[k], p)
    ensures |e.evaluated| <= |checks| && e.evaluated == checks[..|e.evaluated|]
    ensures forall k :: 0 <= k < |e.evaluated| - 1 ==> Holds(e.evaluated[k], p)
    ensures e.matched ==> e.evaluated == checks
    ensures !e.matched ==> |e.evaluated| > 0 && !Holds(e.evaluated[|e.evaluated| - 1], p)
    decreases |checks|
  {
    if |checks| == 0 then Evaluation([], true)
    else if !Holds(checks[0], p) then Evaluation([checks[0]], false)
    else
      var rest := Evaluate(checks[1..], p);
      Evaluation([checks[0]] + rest.evaluated, rest.matched)
  }

  /** The page passes the whole chain. */
  predicate Matches(p: Page) {
    Evaluate(Chain, p).matched
  }

  /**
   * What the chain means, over the page fields: a page matches iff its `og:type` is exactly
   * `video.movie`, `Comedy` occurs somewhere in its subtext and its rating is a number above 7.
   * A page that is not a movie is rejected after one check, a non-comedy movie after two.
   */
  lemma MatchesIff(p: Page)
    ensures Matches(p) <==>
      p.ogType == Some("video.movie")
      && (exists i: nat :: OccursAt(p.subtext, "Comedy", i))
      && p.rating.Some? && p.rating.value > 7.0
    ensures p.ogType != Some("video.movie") ==> Evaluate(Chain, p).evaluated == [IsMovie]
    ensures p.ogType == Some("video.movie") && !(exists i: nat :: OccursAt(p.subtext, "Comedy", i)) ==>
      Evaluate(Chain, p).evaluated == [IsMovie, IsComedy]
  {
    var e := Evaluate(Chain, p);
    assert Chain[0] == IsMovie && Chain[1] == IsComedy && Chain[2] == IsHighlyRated;
    assert Holds(IsComedy, p) <==> exists i: nat :: OccursAt(p.subtext, "Comedy", i);
  }
}
