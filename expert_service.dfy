/** The recommendation engine: the catalog is filtered through a fixed chain
    of predicates, each survivor is scored with integer weights, the scores
    are normalised to a percentage capped at 99, the survivors are ranked by a
    stable descending sort and each gets an explanation. */
module ExpertService {
  import opened Types
  import opened Text
  import opened Lists
  import opened Ranking
  import opened Explanation

  // ---------------------------------------------------------------- filtering

  /** The fields the disliked-note filter searches: all notes, the family and
      the name. */
  function FilterFields(item: Perfume): seq<string> {
    AllNotes(item) + [item.scentFamily, item.name]
  }

  /** The fields scoring searches: all notes, the brand and the family. */
  function ScoreFields(item: Perfume): seq<string> {
    AllNotes(item) + [item.brand, item.scentFamily]
  }

  function FilterText(item: Perfume): string {
    Lower(Join(FilterFields(item), " "))
  }

  function ScoreText(item: Perfume): string {
    Lower(Join(ScoreFields(item), " "))
  }

  /** The filter's matching rule: the lower-cased needle occurs anywhere in
      the lower-cased, space-joined notes, family and name. */
  predicate ItemTextContains(item: Perfume, needle: string) {
    Contains(FilterText(item), Lower(needle))
  }

  predicate HasDislikedNote(item: Perfume, dislikedNotes: seq<string>) {
    exists note :: note in dislikedNotes && ItemTextContains(item, note)
  }

  /** The filter chain, in the order the service applies it. Only the upper
      end of the price range is consulted. */
  predicate Survives(item: Perfume, prefs: Preferences, excludedIds: seq<string>) {
    && item.id !in excludedIds
    && !(item.price > prefs.priceRange.1)
    && !(|prefs.preferredGender| > 0 && item.gender !in prefs.preferredGender)
    && !(|prefs.likedFamilies| > 0 && item.scentFamily !in prefs.likedFamilies)
    && !(|prefs.dislikedFamilies| > 0 && item.scentFamily in prefs.dislikedFamilies)
    && !(prefs.minLongevity != 0 && item.longevity < prefs.minLongevity)
    && !HasDislikedNote(item, prefs.dislikedNotes)
  }

  /** `items.filter(...)`: the survivors in catalog order. */
  function Candidates(items: seq<Perfume>, prefs: Preferences, excludedIds: seq<string>): (r: seq<Perfume>)
    ensures forall item :: item in r <==> item in items && Survives(item, prefs, excludedIds)
    ensures r == Filter(items, item => Survives(item, prefs, excludedIds))
  {
    Filter(items, item => Survives(item, prefs, excludedIds))
  }

  /** The candidates are the catalog read at the surviving positions, so they
      keep catalog order and every surviving entry appears once per occurrence. */
  lemma CandidatesInCatalogOrder(items: seq<Perfume>, prefs: Preferences, excludedIds: seq<string>)
    ensures var idx := KeptIndices(items, item => Survives(item, prefs, excludedIds));
      |Candidates(items, prefs, excludedIds)| == |idx| &&
      forall k :: 0 <= k < |idx| ==> Candidates(items, prefs, excludedIds)[k] == items[idx[k]]
  {
    FilterPicks(items, item => Survives(item, prefs, excludedIds));
  }

  // ---------------------------------------------------------------- scoring

  /** How many favourite notes (counted with repetition) occur in `text`. */
  function FavoriteHits(favorites: seq<string>, text: string): (r: nat)
    ensures r <= |favorites|
  {
    if favorites == [] then 0
    else
      FavoriteHits(favorites[..|favorites| - 1], text)
        + (if Contains(text, Lower(favorites[|favorites| - 1])) then 1 else 0)
  }

  predicate ConcentrationPreferred(item: Perfume, prefs: Preferences) {
    item.concentration in prefs.preferredConcentration
  }

  predicate BrandPreferred(item: Perfume, prefs: Preferences) {
    |prefs.preferredBrands| > 0 &&
    exists b :: b in prefs.preferredBrands && Contains(Lower(item.brand), Lower(b))
  }

  /** The raw score before normalisation. */
  function RawScore(item: Perfume, prefs: Preferences): int {
    20 * FavoriteHits(prefs.favoriteNotes, ScoreText(item))
      + (if ConcentrationPreferred(item, prefs) then 25 else 0)
      + (if BrandPreferred(item, prefs) then 30 else 0)
      + 5 * item.longevity
      + 5 * item.sillage
  }

  /** `Math.round(raw / 150 * 100)`: the integer nearest to `100 * raw / 150`,
      halves rounded up. */
  function RoundPercent(raw: int): (r: int)
    ensures 150 * r - 75 <= 100 * raw < 150 * r + 75
  {
    (100 * raw + 75) / 150
  }

  /** `Math.min(99, Math.round(raw / 150 * 100))`. */
  function Score(item: Perfume, prefs: Preferences): int {
    var p := RoundPercent(RawScore(item, prefs));
    if p < 99 then p else 99
  }

  /** The scoring step, accumulating into a running total as the service does. */
  method ScoreCandidate(item: Perfume, prefs: Preferences) returns (finalScore: int)
    ensures finalScore == Score(item, prefs)
  {
    var score := 0;
    var dataStr := ScoreText(item);
    var favorites := prefs.favoriteNotes;
    for i := 0 to |favorites|
      invariant score == 20 * FavoriteHits(favorites[..i], dataStr)
    {
      assert favorites[..i + 1][..i] == favorites[..i];
      if Contains(dataStr, Lower(favorites[i])) {
        score := score + 20;
      }
    }
    assert favorites[..|favorites|] == favorites;
    if ConcentrationPreferred(item, prefs) {
      score := score + 25;
    }
    if |prefs.preferredBrands| > 0 {
      if exists b :: b in prefs.preferredBrands && Contains(Lower(item.brand), Lower(b)) {
        score := score + 30;
      }
    }
    score := score + item.longevity * 5;
    score := score + item.sillage * 5;
    var rounded := (100 * score + 75) / 150;
    finalScore := if 99 < rounded then 99 else rounded;
  }

  // ---------------------------------------------------------------- ranking

  function ScoreAll(candidates: seq<Perfume>, prefs: Preferences): (r: seq<Scored<Perfume>>)
    ensures |r| == |candidates|
    ensures forall k :: 0 <= k < |r| ==> r[k] == Scored(candidates[k], Score(candidates[k], prefs))
  {
    seq(|candidates|, k requires 0 <= k < |candidates| => Scored(candidates[k], Score(candidates[k], prefs)))
  }

  /** The scored survivors, sorted. */
  function Ranked(items: seq<Perfume>, prefs: Preferences, excludedIds: seq<string>): seq<Scored<Perfume>> {
    SortDesc(ScoreAll(Candidates(items, prefs, excludedIds), prefs))
  }

  function ToRecommendation(s: Scored<Perfume>, prefs: Preferences): Recommendation {
    Recommendation(s.item.id, Explain(s.item, prefs, s.score), s.score)
  }

  /** The recommendation the engine makes for a surviving item. */
  function RecommendationFor(item: Perfume, prefs: Preferences): Recommendation {
    ToRecommendation(Scored(item, Score(item, prefs)), prefs)
  }

  /** `getRecommendations(items, preferences, excludedIds)`. */
  function Recommend(items: seq<Perfume>, prefs: Preferences, excludedIds: seq<string>): (r: seq<Recommendation>)
    ensures |r| == |Ranked(items, prefs, excludedIds)|
    ensures forall k :: 0 <= k < |r| ==> r[k] == ToRecommendation(Ranked(items, prefs, excludedIds)[k], prefs)
  {
    var ranked := Ranked(items, prefs, excludedIds);
    seq(|ranked|, k requires 0 <= k < |ranked| => ToRecommendation(ranked[k], prefs))
  }

  /** `candidates.map(...)`: each survivor paired with its score. */
  method ScoreCandidates(candidates: seq<Perfume>, prefs: Preferences) returns (scored: seq<Scored<Perfume>>)
    ensures scored == ScoreAll(candidates, prefs)
  {
    scored := [];
    for i := 0 to |candidates|
      invariant |scored| == i
      invariant forall k :: 0 <= k < i ==> scored[k] == Scored(candidates[k], Score(candidates[k], prefs))
    {
      var score := ScoreCandidate(candidates[i], prefs);
      scored := scored + [Scored(candidates[i], score)];
    }
  }

  /** `scoredCandidates.map(...)`: the sorted entries turned into
      recommendations. */
  method AttachExplanations(ranked: seq<Scored<Perfume>>, prefs: Preferences) returns (recs: seq<Recommendation>)
    ensures |recs| == |ranked|
    ensures forall k :: 0 <= k < |ranked| ==> recs[k] == ToRecommendation(ranked[k], prefs)
  {
    recs := [];
    for i := 0 to |ranked|
      invariant |recs| == i
      invariant forall k :: 0 <= k < i ==> recs[k] == ToRecommendation(ranked[k], prefs)
    {
      var explanation := GenerateExplanation(ranked[i].item, prefs, ranked[i].score);
      recs := recs + [Recommendation(ranked[i].item.id, explanation, ranked[i].score)];
    }
  }

  /** `getRecommendations`: filter, score each candidate, sort the scored
      array in place, then attach explanations. */
  method GetRecommendations(items: seq<Perfume>, prefs: Preferences, excludedIds: seq<string>)
    returns (recs: seq<Recommendation>)
    ensures recs == Recommend(items, prefs, excludedIds)
  {
    var candidates := Candidates(items, prefs, excludedIds);
    var scored := ScoreCandidates(candidates, prefs);
    var a := new Scored[|scored|](k requires 0 <= k < |scored| => scored[k]);
    assert a[..] == scored;
    SortByScore(a);
    assert a[..] == Ranked(items, prefs, excludedIds);
    recs := AttachExplanations(a[..], prefs);
  }

  // ---------------------------------------------------------------- properties

  /** Every ranked entry is a scored survivor, and every survivor is ranked. */
  lemma RankedMembers(items: seq<Perfume>, prefs: Preferences, excludedIds: seq<string>)
    ensures |Ranked(items, prefs, excludedIds)| == |Candidates(items, prefs, excludedIds)|
    ensures forall s :: s in Ranked(items, prefs, excludedIds) <==>
              s.item in items && Survives(s.item, prefs, excludedIds) && s.score == Score(s.item, prefs)
  {
    var cands := Candidates(items, prefs, excludedIds);
    var scored := ScoreAll(cands, prefs);
    var ranked := Ranked(items, prefs, excludedIds);
    assert multiset(ranked) == multiset(scored);
    forall s ensures s in ranked <==> s.item in items && Survives(s.item, prefs, excludedIds) && s.score == Score(s.item, prefs) {
      calc {
        s in ranked;
        s in multiset(ranked);
        s in multiset(scored);
        s in scored;
      }
      if s in scored {
        var k :| 0 <= k < |scored| && scored[k] == s;
        assert cands[k] in cands;
      }
      if s.item in items && Survives(s.item, prefs, excludedIds) && s.score == Score(s.item, prefs) {
        var k :| 0 <= k < |cands| && cands[k] == s.item;
        assert scored[k] == s;
      }
    }
  }

  lemma RecommendFromSurvivor(items: seq<Perfume>, prefs: Preferences, excludedIds: seq<string>, r: Recommendation)
    requires r in Recommend(items, prefs, excludedIds)
    ensures exists item :: item in items && Survives(item, prefs, excludedIds) && r == RecommendationFor(item, prefs)
  {
    RankedMembers(items, prefs, excludedIds);
    var ranked := Ranked(items, prefs, excludedIds);
    var recs := Recommend(items, prefs, excludedIds);
    var k :| 0 <= k < |recs| && recs[k] == r;
    assert ranked[k] in ranked;
    assert r == RecommendationFor(ranked[k].item, prefs);
  }

  lemma SurvivorRecommended(items: seq<Perfume>, prefs: Preferences, excludedIds: seq<string>, item: Perfume)
    requires item in items && Survives(item, prefs, excludedIds)
    ensures RecommendationFor(item, prefs) in Recommend(items, prefs, excludedIds)
  {
    RankedMembers(items, prefs, excludedIds);
    var ranked := Ranked(items, prefs, excludedIds);
    var s := Scored(item, Score(item, prefs));
    assert s in ranked;
    var k :| 0 <= k < |ranked| && ranked[k] == s;
    assert Recommend(items, prefs, excludedIds)[k] == RecommendationFor(item, prefs);
  }

  /** A recommendation is made exactly for the surviving catalog items, and
      what it says depends only on the item and the preferences. */
  lemma RecommendIsSurvivor(items: seq<Perfume>, prefs: Preferences, excludedIds: seq<string>)
    ensures |Recommend(items, prefs, excludedIds)| == |Candidates(items, prefs, excludedIds)| <= |items|
    ensures forall r :: r in Recommend(items, prefs, excludedIds) <==>
              exists item :: item in items && Survives(item, prefs, excludedIds) && r == RecommendationFor(item, prefs)
  {
    RankedMembers(items, prefs, excludedIds);
    forall r | r in Recommend(items, prefs, excludedIds)
      ensures exists item :: item in items && Survives(item, prefs, excludedIds) && r == RecommendationFor(item, prefs)
    {
      RecommendFromSurvivor(items, prefs, excludedIds, r);
    }
    forall item | item in items && Survives(item, prefs, excludedIds)
      ensures RecommendationFor(item, prefs) in Recommend(items, prefs, excludedIds)
    {
      SurvivorRecommended(items, prefs, excludedIds, item);
    }
  }

  /** No recommendation names an excluded id: each one is scored for a
      catalog item with its id that passes the whole filter chain. */
  lemma RecommendPassesFilters(items: seq<Perfume>, prefs: Preferences, excludedIds: seq<string>, r: Recommendation)
    requires r in Recommend(items, prefs, excludedIds)
    ensures r.perfumeId !in excludedIds
    ensures exists item :: item in items && item.id == r.perfumeId && Survives(item, prefs, excludedIds)
                           && r.score == Score(item, prefs)
  {
    RecommendFromSurvivor(items, prefs, excludedIds, r);
    var item :| item in items && Survives(item, prefs, excludedIds) && r == RecommendationFor(item, prefs);
    assert item.id == r.perfumeId && r.score == Score(item, prefs);
  }

  /** Recommendations come in non-increasing score order. */
  lemma RecommendSorted(items: seq<Perfume>, prefs: Preferences, excludedIds: seq<string>)
    ensures forall i, j :: 0 <= i < j < |Recommend(items, prefs, excludedIds)| ==>
              Recommend(items, prefs, excludedIds)[i].score >= Recommend(items, prefs, excludedIds)[j].score
  {
    SortDescSorted(ScoreAll(Candidates(items, prefs, excludedIds), prefs));
  }

  /** Stability: the ranked entries with any one score are exactly the
      scored survivors with that score, in catalog order. */
  lemma RankedStable(items: seq<Perfume>, prefs: Preferences, excludedIds: seq<string>, v: int)
    ensures WithScore(Ranked(items, prefs, excludedIds), v)
         == WithScore(ScoreAll(Candidates(items, prefs, excludedIds), prefs), v)
  {
    SortDescStable(ScoreAll(Candidates(items, prefs, excludedIds), prefs), v);
  }

  /** The cap at 99 always applies; with non-negative ratings the score is
      never negative. */
  lemma ScoreBounds(item: Perfume, prefs: Preferences)
    ensures Score(item, prefs) <= 99
    ensures item.longevity >= 0 && item.sillage >= 0 ==> Score(item, prefs) >= 0
    ensures Score(item, prefs) == 99 <==> RawScore(item, prefs) >= 148
  {
  }

  /** Every score a recommendation carries lies in [0, 99] when the catalog's
      ratings are non-negative. */
  lemma RecommendScoreRange(items: seq<Perfume>, prefs: Preferences, excludedIds: seq<string>, r: Recommendation)
    requires forall item :: item in items ==> item.longevity >= 0 && item.sillage >= 0
    requires r in Recommend(items, prefs, excludedIds)
    ensures 0 <= r.score <= 99
  {
    RecommendIsSurvivor(items, prefs, excludedIds);
    var item :| item in items && Survives(item, prefs, excludedIds) && r == RecommendationFor(item, prefs);
    ScoreBounds(item, prefs);
  }

  /** An item whose family is disliked never survives, even when the family
      is also liked. */
  lemma DislikedFamilyWins(item: Perfume, prefs: Preferences, excludedIds: seq<string>)
    requires item.scentFamily in prefs.dislikedFamilies
    ensures !Survives(item, prefs, excludedIds)
  {
  }

  /** A disliked note found, ignoring case, in any single field the filter
      searches (a note, the family or the name) excludes the item. */
  lemma DislikedNoteInFieldExcludes(item: Perfume, prefs: Preferences, excludedIds: seq<string>, note: string, k: nat)
    requires note in prefs.dislikedNotes
    requires k < |FilterFields(item)| && Contains(Lower(FilterFields(item)[k]), Lower(note))
    ensures !Survives(item, prefs, excludedIds)
  {
    var fields := FilterFields(item);
    var lowered := seq(|fields|, i requires 0 <= i < |fields| => Lower(fields[i]));
    LowerJoin(fields, " ");
    JoinContains(lowered, " ", k, Lower(note));
    assert ItemTextContains(item, note);
  }

  /** In particular a match inside the name alone excludes the item. */
  lemma DislikedNoteInNameExcludes(item: Perfume, prefs: Preferences, excludedIds: seq<string>, note: string)
    requires note in prefs.dislikedNotes && Contains(Lower(item.name), Lower(note))
    ensures !Survives(item, prefs, excludedIds)
  {
    DislikedNoteInFieldExcludes(item, prefs, excludedIds, note, |FilterFields(item)| - 1);
  }

  /** Monotonicity: raising the price ceiling (whatever happens to the lower
      bound) and excluding fewer ids never removes a recommendation, and never
      changes what a recommendation says. */
  lemma RecommendMonotone(items: seq<Perfume>, prefs: Preferences, excludedIds: seq<string>,
                          prefs': Preferences, excludedIds': seq<string>)
    requires prefs' == prefs.(priceRange := prefs'.priceRange)
    requires prefs'.priceRange.1 >= prefs.priceRange.1
    requires forall id :: id in excludedIds' ==> id in excludedIds
    ensures forall r :: r in Recommend(items, prefs, excludedIds) ==> r in Recommend(items, prefs', excludedIds')
  {
    RecommendIsSurvivor(items, prefs, excludedIds);
    RecommendIsSurvivor(items, prefs', excludedIds');
    forall r | r in Recommend(items, prefs, excludedIds) ensures r in Recommend(items, prefs', excludedIds') {
      var item :| item in items && Survives(item, prefs, excludedIds) && r == RecommendationFor(item, prefs);
      SameRecommendation(item, prefs, prefs');
      assert Survives(item, prefs', excludedIds');
    }
  }

  /** Score and explanation ignore the price range. */
  lemma SameRecommendation(item: Perfume, prefs: Preferences, prefs': Preferences)
    requires prefs' == prefs.(priceRange := prefs'.priceRange)
    ensures RecommendationFor(item, prefs') == RecommendationFor(item, prefs)
  {
    assert MatchedNotes(item, prefs') == MatchedNotes(item, prefs);
    assert Score(item, prefs') == Score(item, prefs);
  }

  /** Changing only the lower end of the price range leaves the ranking
      unchanged. */
  lemma PriceFloorKeepsRanking(items: seq<Perfume>, prefs: Preferences, excludedIds: seq<string>, low: int)
    ensures Ranked(items, prefs.(priceRange := (low, prefs.priceRange.1)), excludedIds)
         == Ranked(items, prefs, excludedIds)
  {
    var prefs' := prefs.(priceRange := (low, prefs.priceRange.1));
    FilterCongruent(items, item => Survives(item, prefs, excludedIds), item => Survives(item, prefs', excludedIds));
    var cands := Candidates(items, prefs, excludedIds);
    assert Candidates(items, prefs', excludedIds) == cands;
    forall k | 0 <= k < |cands| ensures Score(cands[k], prefs') == Score(cands[k], prefs) {
      SameRecommendation(cands[k], prefs, prefs');
    }
    assert ScoreAll(cands, prefs') == ScoreAll(cands, prefs);
  }

  /** The lower end of the price range is never read: changing it leaves the
      whole result unchanged. */
  lemma PriceFloorIgnored(items: seq<Perfume>, prefs: Preferences, excludedIds: seq<string>, low: int)
    ensures Recommend(items, prefs.(priceRange := (low, prefs.priceRange.1)), excludedIds)
         == Recommend(items, prefs, excludedIds)
  {
    var prefs' := prefs.(priceRange := (low, prefs.priceRange.1));
    PriceFloorKeepsRanking(items, prefs, excludedIds, low);
    var ranked := Ranked(items, prefs, excludedIds);
    var r, r' := Recommend(items, prefs, excludedIds), Recommend(items, prefs', excludedIds);
    forall k | 0 <= k < |ranked| ensures r'[k] == r[k] {
      assert MatchedNotes(ranked[k].item, prefs') == MatchedNotes(ranked[k].item, prefs);
    }
  }

  /** A favourite note that the explanation reports as matched also occurs in
      the scoring text, so it earned its 20 points. */
  lemma MatchedNoteIsScored(item: Perfume, favorite: string)
    requires MatchesSomeNote(item, favorite)
    ensures Contains(ScoreText(item), Lower(favorite))
  {
    var note :| note in AllNotes(item) && NoteMatchesFavorite(note, favorite);
    var fields := ScoreFields(item);
    var k :| 0 <= k < |AllNotes(item)| && AllNotes(item)[k] == note;
    assert fields[k] == note;
    var lowered := seq(|fields|, i requires 0 <= i < |fields| => Lower(fields[i]));
    LowerJoin(fields, " ");
    JoinContains(lowered, " ", k, Lower(favorite));
  }

  /** Hence the matched notes never outnumber the scoring hits. */
  lemma {:induction false} MatchedNotesAreHits(item: Perfume, favorites: seq<string>)
    ensures |Filter(favorites, n => MatchesSomeNote(item, n))| <= FavoriteHits(favorites, ScoreText(item))
  {
    if favorites != [] {
      var init, last := favorites[..|favorites| - 1], favorites[|favorites| - 1];
      MatchedNotesAreHits(item, init);
      assert favorites == init + [last];
      FilterConcat(init, [last], n => MatchesSomeNote(item, n));
      if MatchesSomeNote(item, last) {
        MatchedNoteIsScored(item, last);
      }
    }
  }

  /** Each matched note contributes 20 points to the raw score. */
  lemma RawScoreCoversMatchedNotes(item: Perfume, prefs: Preferences)
    ensures RawScore(item, prefs) >= 20 * |MatchedNotes(item, prefs)| + 5 * item.longevity + 5 * item.sillage
  {
    MatchedNotesAreHits(item, prefs.favoriteNotes);
  }
}
