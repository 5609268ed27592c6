/** The title matcher `pick_best_match` of jw_update.py: every search result
    is scored against the wanted (title, year); the first result with the
    highest score wins and its score becomes a 0-100 confidence. */
module Matching {
  import opened Text
  import opened Records
  import opened Store

  /** The matcher's answer: nothing for an empty result list, else the
      winning record, how it matched, the confidence and the media type. */
  datatype Match = NoMatch | Match(best: Record, via: Via, confidence: int, matchedType: MediaType)

  datatype Scored = Scored(score: int, via: Via)

  /** `norm`: strip, then lower-case. */
  function Norm(s: string): string {
    Lower(Trim(s))
  }

  /** Python truthiness of an optional year: `None` and 0 are both absent. */
  predicate YearGiven(y: Option<int>) {
    y.Some? && y.value != 0
  }

  /** The wanted year, `int(year) if year else None`, `None` where `int` raises. */
  function TargetYear(year: Value): Option<int> {
    if Truthy(year) then PyInt(year) else None
  }

  /** `g(r, "title", "original_title", "name") or ""`. */
  function CandidateTitle(r: Record): string {
    AsString(FirstPresent(r, ["title", "original_title", "name"]))
  }

  /** `(od or "")[:4] if od else None`. */
  function DatePrefix(od: Value): Value {
    if Truthy(od) then Str(Prefix(AsString(od), 4)) else Null
  }

  /** A result's year: its `year` or `original_release_year` when truthy,
      else the first four characters of `original_release_date`, passed
      through `int()`; `None` when there is nothing or `int()` raises. */
  function CandidateYear(r: Record): Option<int> {
    var y := FirstPresent(r, ["year", "original_release_year"]);
    var y' := if Truthy(y) then y else DatePrefix(FirstPresent(r, ["original_release_date"]));
    if Truthy(y') then PyInt(y') else None
  }

  /** With no usable year field, a release date whose first four characters
      are digits gives the year those digits spell. */
  lemma CandidateYearFromDate(r: Record, d: string)
    requires !Truthy(FirstPresent(r, ["year", "original_release_year"]))
    requires Get(r, "original_release_date") == Str(d)
    requires |d| >= 4 && IsDigits(d[..4])
    ensures CandidateYear(r) == Some(DigitsValue(d[..4]))
  {
    assert FirstPresent(r, ["original_release_date"]) == Str(d);
    DatePrefixDigits(d);
  }

  lemma DatePrefixDigits(d: string)
    requires |d| >= 4 && IsDigits(d[..4])
    ensures Truthy(DatePrefix(Str(d))) && PyInt(DatePrefix(Str(d))) == Some(DigitsValue(d[..4]))
  {
    assert Prefix(d, 4) == d[..4];
    ParseIntDigits(d[..4]);
  }

  /** The score of a result whose normalised title is `title` and whose year
      is `ry`, against the normalised wanted title `target` and the wanted
      year `year`. */
  function ScoreOf(title: string, ry: Option<int>, target: string, year: Option<int>): (s: Scored)
    ensures s.score in {0, 3, 5, 10, 20}
    ensures s.via == NameYear <==> s.score in {5, 20}
  {
    if title == target then
      if YearGiven(year) && ry == year then Scored(20, NameYear) else Scored(10, NameOnly)
    else if target != "" && Contains(title, target) then
      if YearGiven(year) && YearGiven(ry) && -1 <= ry.value - year.value <= 1 then Scored(5, NameYear)
      else Scored(3, NameOnly)
    else
      Scored(0, NameOnly)
  }

  /** What each score means: 10 or more exactly when the normalised titles
      are equal, 20 when the wanted year is given (neither `None` nor 0) and
      equals the result's; 5 for a contained title whose given year is at
      most one off the result's truthy year; 0 when the titles are unequal
      and the wanted title is empty or does not occur in the result's. */
  lemma ScoreMeaning(title: string, ry: Option<int>, target: string, year: Option<int>)
    ensures var s := ScoreOf(title, ry, target, year);
            && (s.score >= 10 <==> title == target)
            && (s.score == 20 <==> title == target && YearGiven(year) && ry == year)
            && (s.score == 5 <==> title != target && target != "" && (exists i :: OccursAt(title, target, i))
                                  && YearGiven(year) && YearGiven(ry) && -1 <= ry.value - year.value <= 1)
            && (s.score == 0 <==> title != target && (target == "" || forall i :: !OccursAt(title, target, i)))
  {
    ContainsSpec(title, target);
  }

  /** A wanted year of 0 is no year at all. */
  lemma ZeroYearIsAbsent(title: string, ry: Option<int>, target: string)
    ensures ScoreOf(title, ry, target, Some(0)) == ScoreOf(title, ry, target, None)
  {
  }

  /** `pick_best_match`'s score of one result. */
  function Score(r: Record, target: string, year: Option<int>): Scored {
    ScoreOf(Norm(CandidateTitle(r)), CandidateYear(r), target, year)
  }

  function Scores(results: seq<Record>, target: string, year: Option<int>): (s: seq<int>)
    ensures |s| == |results|
    ensures forall i :: 0 <= i < |results| ==> s[i] == Score(results[i], target, year).score
  {
    seq(|results|, i requires 0 <= i < |results| => Score(results[i], target, year).score)
  }

  /** `k` is the first index holding the largest score: where a stable sort
      by descending score puts its first element. */
  predicate FirstBest(scores: seq<int>, k: int) {
    && 0 <= k < |scores|
    && (forall j :: 0 <= j < |scores| ==> scores[j] <= scores[k])
    && (forall j :: 0 <= j < k ==> scores[j] < scores[k])
  }

  /** The head of `sorted(scores, reverse=True)`, by position. */
  function FirstMax(scores: seq<int>): (k: nat)
    requires |scores| > 0
    ensures FirstBest(scores, k)
  {
    if |scores| == 1 then
      0
    else
      var k := FirstMax(scores[..|scores| - 1]);
      if scores[|scores| - 1] > scores[k] then |scores| - 1 else k
  }

  /** `max(0, min(100, score * 5))`. */
  function Confidence(score: int): int {
    Max(0, Min(100, score * 5))
  }

  /** "MOVIE" when the upper-cased `object_type` (or `type`) starts with
      "MOVIE", "SHOW" otherwise. */
  function TypeOf(r: Record): MediaType {
    if StartsWith(Upper(AsString(FirstPresent(r, ["object_type", "type"]))), "MOVIE") then Movie else Show
  }

  lemma ConfidenceOfScore(score: int)
    requires score in {0, 3, 5, 10, 20}
    ensures Confidence(score) == 5 * score
  {
  }

  function MatchOf(r: Record, s: Scored): Match {
    Match(r, s.via, Confidence(s.score), TypeOf(r))
  }

  /** The first best-scoring result among non-empty `results`, reported
      with its own score's confidence and type. */
  function Pick(results: seq<Record>, target: string, y: Option<int>): (m: Match)
    requires results != []
  {
    var k := FirstMax(Scores(results, target, y));
    MatchOf(results[k], Score(results[k], target, y))
  }

  lemma PickRange(results: seq<Record>, target: string, y: Option<int>)
    requires results != []
    ensures var m := Pick(results, target, y);
            && m.Match? && m.confidence in {0, 15, 25, 50, 100}
            && (m.via == NameYear <==> m.confidence in {25, 100})
  {
    var k := FirstMax(Scores(results, target, y));
    var s := Score(results[k], target, y);
    ConfidenceOfScore(s.score);
  }

  /** `pick_best_match(results, title, year)`; a `None` result list is the
      empty one. */
  function PickBestMatch(results: seq<Record>, title: string, year: Value): (m: Match)
    ensures m.NoMatch? <==> results == []
    ensures m.Match? ==> m.confidence in {0, 15, 25, 50, 100}
    ensures m.Match? ==> (m.via == NameYear <==> m.confidence in {25, 100})
  {
    if results == [] then
      NoMatch
    else
      PickRange(results, Norm(title), TargetYear(year));
      Pick(results, Norm(title), TargetYear(year))
  }

  /** The winner is the first result with the highest score, and what is
      reported is that result's own score, confidence and type. */
  lemma PickBestMatchWinner(results: seq<Record>, title: string, year: Value)
    requires results != []
    ensures exists k :: && FirstBest(Scores(results, Norm(title), TargetYear(year)), k)
                        && PickBestMatch(results, title, year) == MatchOf(results[k], Score(results[k], Norm(title), TargetYear(year)))
  {
    var target, y := Norm(title), TargetYear(year);
    var k := FirstMax(Scores(results, target, y));
    assert PickBestMatch(results, title, year) == MatchOf(results[k], Score(results[k], target, y));
  }

  /** Only one position satisfies `FirstBest`, so the winner is determined. */
  lemma FirstBestUnique(scores: seq<int>, k1: int, k2: int)
    requires FirstBest(scores, k1) && FirstBest(scores, k2)
    ensures k1 == k2
  {
    assert scores[k1] == scores[k2];
    assert !(k1 < k2) && !(k2 < k1);
  }

  lemma TrimHeat()
    ensures Trim("Heat") == "Heat" && Trim("Heat 2") == "Heat 2"
  {
    TrimUnpadded("Heat");
    TrimUnpadded("Heat 2");
  }

  lemma LowerHeat()
    ensures Lower("Heat") == "heat" && Lower("Heat 2") == "heat 2"
  {
  }

  lemma NormHeat()
    ensures Norm("Heat") == "heat" && Norm("Heat 2") == "heat 2"
  {
    TrimHeat();
    LowerHeat();
  }

  lemma HeatFields()
    ensures CandidateTitle(map["title" := Str("Heat"), "year" := Int(1995)]) == "Heat"
    ensures CandidateYear(map["title" := Str("Heat"), "year" := Int(1995)]) == Some(1995)
    ensures CandidateTitle(map["title" := Str("Heat 2"), "year" := Int(1996)]) == "Heat 2"
    ensures CandidateYear(map["title" := Str("Heat 2"), "year" := Int(1996)]) == Some(1996)
  {
    var r1 := map["title" := Str("Heat"), "year" := Int(1995)];
    var r2 := map["title" := Str("Heat 2"), "year" := Int(1996)];
    assert FirstPresent(r1, ["title", "original_title", "name"]) == Str("Heat");
    assert FirstPresent(r1, ["year", "original_release_year"]) == Int(1995);
    assert FirstPresent(r2, ["title", "original_title", "name"]) == Str("Heat 2");
    assert FirstPresent(r2, ["year", "original_release_year"]) == Int(1996);
  }

  /** The title and the year both agree: score 20, by name and year. */
  lemma ExactTitleAndYear()
    ensures Score(map["title" := Str("Heat"), "year" := Int(1995)], "heat", Some(1995)) == Scored(20, NameYear)
  {
    HeatFields();
    NormHeat();
  }

  /** The wanted title inside a longer one, one year off: score 5, by name
      and year. */
  lemma ContainedTitleNearYear()
    ensures Score(map["title" := Str("Heat 2"), "year" := Int(1996)], "heat", Some(1995)) == Scored(5, NameYear)
  {
    HeatFields();
    NormHeat();
    ContainedScore();
  }

  lemma ContainedScore()
    ensures ScoreOf("heat 2", Some(1996), "heat", Some(1995)) == Scored(5, NameYear)
  {
    assert OccursAt("heat 2", "heat", 0);
    ContainsSpec("heat 2", "heat");
  }
}
