/** The application's recommendation-list workflows: the top-three display,
    adding an item, replacing one displayed recommendation automatically or
    by hand, the alternatives offered while replacing, and the catalog views.
    The React state setters are plumbing; each workflow is the value it
    computes from the current state. */
module App {
  import opened Types
  import opened Lists
  import opened ExpertService

  /** `fetchRecommendations`: the engine's list, cut to its first three. */
  function FetchRecommendations(items: seq<Perfume>, prefs: Preferences): (r: seq<Recommendation>)
    ensures |r| <= 3 && |r| <= |Recommend(items, prefs, [])|
    ensures r == Recommend(items, prefs, [])[..|r|]
    ensures |r| == 3 || r == Recommend(items, prefs, [])
  {
    Take(Recommend(items, prefs, []), 3)
  }

  /** The three shown are the best scored: none of those cut off beats them. */
  lemma DisplayedAreTopScored(items: seq<Perfume>, prefs: Preferences)
    ensures var shown, all := FetchRecommendations(items, prefs), Recommend(items, prefs, []);
      forall i, j :: 0 <= i < |shown| <= j < |all| ==> shown[i].score >= all[j].score
  {
    RecommendSorted(items, prefs, []);
  }

  /** `addItem`: the new record goes to the front of the catalog. */
  function AddItem(items: seq<Perfume>, newItem: Perfume): (r: seq<Perfume>)
    ensures |r| == |items| + 1 && r[0] == newItem && r[1..] == items
  {
    [newItem] + items
  }

  /** Adding an item loses no recommendation, and the new item is
      recommended exactly when it passes the filters. */
  lemma AddItemRecommendations(items: seq<Perfume>, newItem: Perfume, prefs: Preferences, excludedIds: seq<string>)
    ensures forall r :: r in Recommend(items, prefs, excludedIds) ==> r in Recommend(AddItem(items, newItem), prefs, excludedIds)
    ensures Survives(newItem, prefs, excludedIds) ==>
      RecommendationFor(newItem, prefs) in Recommend(AddItem(items, newItem), prefs, excludedIds)
  {
    var grown := AddItem(items, newItem);
    forall r | r in Recommend(items, prefs, excludedIds) ensures r in Recommend(grown, prefs, excludedIds) {
      RecommendFromSurvivor(items, prefs, excludedIds, r);
      var item :| item in items && Survives(item, prefs, excludedIds) && r == RecommendationFor(item, prefs);
      assert item in grown;
      SurvivorRecommended(grown, prefs, excludedIds, item);
    }
    if Survives(newItem, prefs, excludedIds) {
      assert newItem in grown;
      SurvivorRecommended(grown, prefs, excludedIds, newItem);
    }
  }

  /** `prev.map(r => r.perfumeId === oldId ? newRec : r)`. */
  function ReplaceSlot(recs: seq<Recommendation>, oldId: string, newRec: Recommendation): (r: seq<Recommendation>)
    ensures |r| == |recs|
    ensures forall k :: 0 <= k < |r| ==> r[k] == if recs[k].perfumeId == oldId then newRec else recs[k]
  {
    seq(|recs|, k requires 0 <= k < |recs| => if recs[k].perfumeId == oldId then newRec else recs[k])
  }

  /** What `autoReplace` asks the engine for: every current id excluded. */
  function AutoCandidates(recs: seq<Recommendation>, items: seq<Perfume>, prefs: Preferences): seq<Recommendation> {
    Recommend(items, prefs, RecIds(recs))
  }

  /** `autoReplace(oldId)`: the head of the engine's ranking with every
      displayed id excluded (the best score, ties going to the earlier catalog
      entry) takes the place of every entry with id `oldId`; with no
      alternative the list stays as it is. */
  function AutoReplace(recs: seq<Recommendation>, items: seq<Perfume>, prefs: Preferences, oldId: string): (r: seq<Recommendation>)
    ensures AutoCandidates(recs, items, prefs) == [] ==> r == recs
    ensures |r| == |recs|
    ensures forall k :: 0 <= k < |recs| && recs[k].perfumeId != oldId ==> r[k] == recs[k]
    ensures forall k :: 0 <= k < |recs| && recs[k].perfumeId == oldId && AutoCandidates(recs, items, prefs) != [] ==>
      && r[k] in AutoCandidates(recs, items, prefs)
      && r[k].perfumeId !in RecIds(recs)
      && forall a :: a in AutoCandidates(recs, items, prefs) ==> r[k].score >= a.score
    ensures AutoCandidates(recs, items, prefs) != [] ==>
      forall k :: 0 <= k < |recs| && recs[k].perfumeId == oldId ==> r[k] == AutoCandidates(recs, items, prefs)[0]
  {
    var alternatives := AutoCandidates(recs, items, prefs);
    if |alternatives| > 0 then
      AlternativesHeadIsBest(recs, items, prefs);
      ReplaceSlot(recs, oldId, alternatives[0])
    else recs
  }

  lemma AlternativesHeadIsBest(recs: seq<Recommendation>, items: seq<Perfume>, prefs: Preferences)
    requires AutoCandidates(recs, items, prefs) != []
    ensures var alts := AutoCandidates(recs, items, prefs);
      alts[0].perfumeId !in RecIds(recs) && forall a :: a in alts ==> alts[0].score >= a.score
  {
    var alts := AutoCandidates(recs, items, prefs);
    RecommendSorted(items, prefs, RecIds(recs));
    RecommendPassesFilters(items, prefs, RecIds(recs), alts[0]);
  }

  /** What `manualReplace` asks the engine for: every current id excluded
      except the one being replaced. */
  function ManualCandidates(recs: seq<Recommendation>, items: seq<Perfume>, prefs: Preferences, oldId: string): seq<Recommendation> {
    Recommend(items, prefs, Filter(RecIds(recs), id => id != oldId))
  }

  /** The choice step of `manualReplace`: the first of `candidates` with id
      `newItemId`, if any, takes the place of every entry with id `oldId`;
      otherwise the list stays as it is. */
  function InstallChoice(recs: seq<Recommendation>, oldId: string, candidates: seq<Recommendation>, newItemId: string)
    : (r: seq<Recommendation>)
    ensures (forall c :: c in candidates ==> c.perfumeId != newItemId) ==> r == recs
    ensures |r| == |recs|
    ensures forall k :: 0 <= k < |recs| && recs[k].perfumeId != oldId ==> r[k] == recs[k]
    ensures forall k :: 0 <= k < |recs| && r[k] != recs[k] ==> r[k].perfumeId == newItemId && r[k] in candidates
    ensures (exists c :: c in candidates && c.perfumeId == newItemId) ==>
      forall k :: 0 <= k < |recs| && recs[k].perfumeId == oldId ==> r[k].perfumeId == newItemId && r[k] in candidates
  {
    match Find(candidates, (c: Recommendation) => c.perfumeId == newItemId)
    case None => recs
    case Some(newRec) => ReplaceSlot(recs, oldId, newRec)
  }

  /** `manualReplace(oldId, newItemId)`: the engine is asked again with every
      displayed id excluded except `oldId`, and the choice is made among its
      answers. */
  function ManualReplace(recs: seq<Recommendation>, items: seq<Perfume>, prefs: Preferences, oldId: string, newItemId: string)
    : seq<Recommendation>
  {
    InstallChoice(recs, oldId, ManualCandidates(recs, items, prefs, oldId), newItemId)
  }

  /** The `alternatives` offered while a replacement is pending: nothing when
      no entry is being replaced (`replacingId` null or empty), otherwise
      every recommendation not already displayed. */
  function Alternatives(replacingId: Option<string>, recs: seq<Recommendation>, items: seq<Perfume>, prefs: Preferences)
    : (r: seq<Recommendation>)
    ensures replacingId == None || replacingId == Some("") ==> r == []
    ensures replacingId.Some? && replacingId.value != "" ==> r == AutoCandidates(recs, items, prefs)
    ensures forall a :: a in r ==> a.perfumeId !in RecIds(recs)
  {
    if replacingId.None? || replacingId.value == "" then []
    else
      var alts := AutoCandidates(recs, items, prefs);
      assert forall a :: a in alts ==> a.perfumeId !in RecIds(recs) by {
        forall a | a in alts ensures a.perfumeId !in RecIds(recs) {
          RecommendPassesFilters(items, prefs, RecIds(recs), a);
        }
      }
      alts
  }

  /** Picking any offered alternative by hand installs exactly that
      recommendation in place of the entry being replaced: `manualReplace`
      excludes a subset of the ids `alternatives` excluded. */
  lemma OfferedAlternativeIsInstalled(replacingId: Option<string>, recs: seq<Recommendation>, items: seq<Perfume>,
                                      prefs: Preferences, oldId: string, a: Recommendation)
    requires a in Alternatives(replacingId, recs, items, prefs)
    ensures forall k :: 0 <= k < |recs| && recs[k].perfumeId == oldId ==>
      ManualReplace(recs, items, prefs, oldId, a.perfumeId)[k].perfumeId == a.perfumeId
  {
    assert a in AutoCandidates(recs, items, prefs);
    RecommendMonotone(items, prefs, RecIds(recs), prefs, Filter(RecIds(recs), id => id != oldId));
    assert a in ManualCandidates(recs, items, prefs, oldId);
  }

  /** `filteredDatabase`: the catalog entries of one scent family, in order. */
  function FilteredDatabase(items: seq<Perfume>, family: string): (r: seq<Perfume>)
    ensures forall item :: item in r <==> item in items && item.scentFamily == family
    ensures r == Filter(items, (i: Perfume) => i.scentFamily == family)
  {
    Filter(items, (i: Perfume) => i.scentFamily == family)
  }

  /** The family view is the catalog read at the positions of that family, in
      increasing order: catalog order and repetitions are kept. */
  lemma FilteredDatabaseInCatalogOrder(items: seq<Perfume>, family: string)
    ensures var idx := KeptIndices(items, (i: Perfume) => i.scentFamily == family);
      |FilteredDatabase(items, family)| == |idx| &&
      forall k :: 0 <= k < |idx| ==> FilteredDatabase(items, family)[k] == items[idx[k]]
  {
    FilterPicks(items, (i: Perfume) => i.scentFamily == family);
  }

  /** `favoriteItems`: the catalog entries whose id is a favourite, in order. */
  function FavoriteItems(items: seq<Perfume>, favorites: seq<string>): (r: seq<Perfume>)
    ensures forall item :: item in r <==> item in items && item.id in favorites
    ensures r == Filter(items, (i: Perfume) => i.id in favorites)
  {
    Filter(items, (i: Perfume) => i.id in favorites)
  }

  /** The favourites view is the catalog read at the positions whose id is a
      favourite, in increasing order: catalog order and repetitions are kept. */
  lemma FavoriteItemsInCatalogOrder(items: seq<Perfume>, favorites: seq<string>)
    ensures var idx := KeptIndices(items, (i: Perfume) => i.id in favorites);
      |FavoriteItems(items, favorites)| == |idx| &&
      forall k :: 0 <= k < |idx| ==> FavoriteItems(items, favorites)[k] == items[idx[k]]
  {
    FilterPicks(items, (i: Perfume) => i.id in favorites);
  }
}
