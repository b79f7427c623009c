# Perfume recommender: a verified model of its decision logic

The application is a single-page perfume catalog with a recommendation
expert. This project models the parts of it that decide something, leaving
out rendering, and proves what they promise.

- **The recommendation engine** (`ExpertService`, with `Ranking` and
  `Explanation`). It filters the catalog through its chain of predicates:
  exclusion, price ceiling, gender, liked and disliked family, minimum
  longevity, and a disliked-note substring test. It scores each survivor
  with integer weights. It normalises the score to a percentage capped at
  99. It sorts stably by descending score, the way `Array.prototype.sort`
  must (ECMA-262, 10th edition, section 22.1.3.27). Then it attaches a
  templated explanation.
  - The scoring loop, the in-place sort of an array and the appending
    explanation builder are imperative methods. Each is proved equal to a
    reference function.
  - The properties are proved about those reference functions.
- **The recommendation-list workflows** (`App`):
  - the top-three display;
  - adding an item;
  - replacing a displayed recommendation automatically or by hand;
  - the alternatives offered while replacing;
  - the favourites and family views.
- **The catalog merge** (`CatalogMerge`). `updateItemList` builds a
  JavaScript `Map` keyed by id, sets every updated record in a loop, and
  reads the values back in insertion order.
  - The imperative model keeps a key list in insertion order next to a
    table.
  - It is proved equal to a functional merge whose order and contents are
    characterised by lemmas.
- **The preference editor** (`PreferenceManager`). It is a three-state
  machine (neutral, liked, disliked) over pairs of lists, for families and
  for notes. It also has the gender, concentration, price-ceiling and
  minimum-longevity controls.
- **The catalog table** (`PerfumeTable`) and **the add form**
  (`AddPerfumeModal`).
  - The table covers delete-with-confirmation and cell edits, as list
    transforms handed to the merge.
  - The form covers its default content and the per-field update that
    splits and trims note lists.

Strings are `seq<char>`. `Contains` is JavaScript's `includes`, `Lower` is
`toLowerCase` on ASCII letters, and `Trim` removes ASCII whitespace.
`Lists` provides the generic list operations: `filter`, removing every
occurrence, the membership toggle, `slice(0, n)` and `find`. `Text`
provides the string operations.

`Math.round(raw / 150 * 100)` is computed exactly as
`(100 * raw + 75) / 150` with floor division. In exact arithmetic the two
agree for every integer `raw`, because `4 * raw + 3` is odd, so the product is never an
exact tie.

## Model

| member | source | states |
|---|---|---|
| ExpertService.Candidates | services/perfumeExpertService.ts:13-37 | an item is a candidate exactly when it is in the catalog and passes every filter of the chain (`Survives`); the candidates are the catalog filtered by that chain |
| ExpertService.CandidatesInCatalogOrder | services/perfumeExpertService.ts:13-37 | the candidates are the catalog read at the surviving positions, in increasing order: catalog order and repetitions are kept |
| ExpertService.RecommendPassesFilters | services/perfumeExpertService.ts:13-37 | no recommendation carries an excluded id; each names a catalog item of that id that passes the whole filter chain, with that item's score |
| ExpertService.RecommendIsSurvivor | services/perfumeExpertService.ts:13-79 | exactly one recommendation per surviving item; a recommendation exists for a value exactly when some surviving catalog item yields it |
| ExpertService.DislikedFamilyWins | services/perfumeExpertService.ts:23-24 | an item whose family is disliked never survives, even when it is also liked |
| ExpertService.DislikedNoteInFieldExcludes | services/perfumeExpertService.ts:29-34 | a disliked note found ignoring case in any single note, the family or the name excludes the item |
| ExpertService.DislikedNoteInNameExcludes | services/perfumeExpertService.ts:30-34 | in particular a match inside the name alone excludes the item |
| ExpertService.PriceFloorKeepsRanking | services/perfumeExpertService.ts:17 | changing the lower end of the price range leaves the ranked list unchanged |
| ExpertService.PriceFloorIgnored | services/perfumeExpertService.ts:17 | the whole result does not depend on the lower end of the price range |
| ExpertService.RecommendMonotone | services/perfumeExpertService.ts:13-79 | a higher price ceiling and fewer excluded ids never drop a recommendation or change what it says |
| ExpertService.SameRecommendation | services/perfumeExpertService.ts:39-79 | score and explanation do not depend on the price range |
| ExpertService.FavoriteHits | services/perfumeExpertService.ts:44-48 | the favourite-note hit count is at most the number of favourites |
| ExpertService.RoundPercent | services/perfumeExpertService.ts:67 | the result is the integer nearest to `100 * raw / 150`, halves rounded up |
| ExpertService.ScoreCandidate | services/perfumeExpertService.ts:39-67 | the accumulating loop computes the reference score: 20 per favourite note in the joined notes, brand and family text, 25 for a preferred concentration, 30 for a preferred brand substring, 5 per longevity and sillage point, normalised and capped at 99 |
| ExpertService.ScoreBounds | services/perfumeExpertService.ts:67 | the score never exceeds 99; it is 99 exactly when the raw score is at least 148; non-negative ratings give a non-negative score |
| ExpertService.RecommendScoreRange | services/perfumeExpertService.ts:67-79 | with non-negative ratings every recommendation scores within 0..99 |
| ExpertService.ScoreAll | services/perfumeExpertService.ts:39-70 | each candidate is paired, in order, with its score |
| ExpertService.ScoreCandidates | services/perfumeExpertService.ts:39-70 | the mapping loop yields exactly the scored candidates |
| ExpertService.Recommend | services/perfumeExpertService.ts:75-79 | entry k is the k-th ranked item's recommendation: its id, its explanation, its score |
| ExpertService.AttachExplanations | services/perfumeExpertService.ts:75-79 | the loop turns each ranked entry into its recommendation, in order |
| ExpertService.GetRecommendations | services/perfumeExpertService.ts:8-80 | the method (filter, score loop, in-place array sort, explanation loop) returns exactly the reference result |
| ExpertService.RankedMembers | services/perfumeExpertService.ts:39-73 | the ranking holds every surviving item with its score and nothing else, one entry per candidate |
| ExpertService.RecommendFromSurvivor | services/perfumeExpertService.ts:13-79 | every recommendation is the one made for some surviving catalog item |
| ExpertService.SurvivorRecommended | services/perfumeExpertService.ts:13-79 | every surviving catalog item is recommended |
| ExpertService.RecommendSorted | services/perfumeExpertService.ts:73 | recommendations come in non-increasing score order |
| ExpertService.RankedStable | services/perfumeExpertService.ts:73 | for every score, the ranked entries with that score are the scored candidates with that score, in catalog order |
| ExpertService.MatchedNoteIsScored | services/perfumeExpertService.ts:41-85 | a favourite the explanation reports as matched also occurs in the scoring text |
| ExpertService.MatchedNotesAreHits | services/perfumeExpertService.ts:44-85 | the matched favourites never outnumber the scoring hits |
| ExpertService.RawScoreCoversMatchedNotes | services/perfumeExpertService.ts:39-64 | the raw score is at least 20 per matched note plus the longevity and sillage bonuses |
| Ranking.Insert | services/perfumeExpertService.ts:73 | insertion adds exactly one element: one longer, multiset grows by the element |
| Ranking.SortDesc | services/perfumeExpertService.ts:73 | the reference sort is a permutation of its input |
| Ranking.SortDescSorted | services/perfumeExpertService.ts:73 | the reference sort orders by non-increasing score |
| Ranking.SortDescStable | services/perfumeExpertService.ts:73 | for every score, the elements with that score keep their input order (stability and permutation) |
| Ranking.InsertAt | services/perfumeExpertService.ts:73 | placing an element after the last one scoring at least as much is the reference insertion |
| Ranking.MakeRoom | services/perfumeExpertService.ts:73 | the shifting loop moves exactly the lower-scoring run of the prefix one slot right and reports the freed slot |
| Ranking.InsertLast | services/perfumeExpertService.ts:73 | one in-place pass turns the array prefix into the reference insertion of its next element |
| Ranking.SortByScore | services/perfumeExpertService.ts:73 | the in-place array sort leaves exactly the reference sort of the original contents |
| Explanation.MatchedNotes | services/perfumeExpertService.ts:83-85 | a favourite is matched exactly when some single top, middle or base note contains it, ignoring case; the result is the favourite list filtered by that test |
| Explanation.MatchedNotesInPreferenceOrder | services/perfumeExpertService.ts:83-85 | the matched notes are the favourite list read at the matching positions, in increasing order: preference order and repetitions are kept |
| Explanation.GenerateExplanation | services/perfumeExpertService.ts:82-116 | the appending builder produces the reference explanation |
| Explanation.IntroBands | services/perfumeExpertService.ts:95-99 | the ideal intro exactly above 80, the second exactly in 61..80, the neutral one exactly at 60 or below |
| Explanation.LongevityLookup | services/perfumeExpertService.ts:87-101 | ratings 1..5 get five distinct phrases; every other value, and only those, gets the fallback |
| Explanation.OccasionLookup | services/perfumeExpertService.ts:109-111 | Office, Date and Night have their own phrase; exactly the other occasions are described as everyday use |
| Explanation.ExplainParts | services/perfumeExpertService.ts:113-115 | the explanation starts with the intro, ends with the pairing sentence and contains the family and notes sentences |
| Explanation.NotesSentenceMentions | services/perfumeExpertService.ts:103-107 | the notes sentence names the first three matched notes, or the first two top notes when none matched |
| Explanation.ExplainMentions | services/perfumeExpertService.ts:101-115 | the explanation names the lower-cased family, the longevity phrase, the occasion phrase and the listed notes |
| App.FetchRecommendations | App.tsx:62-63 | the display is a prefix of the engine's list with at most three entries, and all of it when the list is shorter |
| App.DisplayedAreTopScored | App.tsx:62-63 | no recommendation cut off scores above a displayed one |
| App.AddItem | App.tsx:74-75 | the new record is first and the old catalog follows unchanged |
| App.AddItemRecommendations | App.tsx:74-75 | adding an item loses no recommendation and adds the new item's when it passes the filters |
| App.ReplaceSlot | App.tsx:91 | every entry with the old id becomes the new entry; all others are kept |
| App.AutoReplace | App.tsx:87-94 | unchanged when there is no alternative; same length; entries with another id are kept; every replaced slot gets the head of the alternatives (`alternativesRecs[0]`), which is not displayed and scores at least every other alternative |
| App.AlternativesHeadIsBest | App.tsx:88-91 | the first alternative is not displayed and outscores or ties every alternative |
| App.InstallChoice | App.tsx:96-104 | no candidate with the chosen id: unchanged; same length; entries with another id kept; a changed entry has the chosen id and is a candidate; with such a candidate every old-id slot receives one |
| App.Alternatives | App.tsx:122-126 | nothing while no entry is being replaced (null or empty id); otherwise exactly the ranked automatic candidates (`AutoCandidates`), none of them already displayed |
| App.OfferedAlternativeIsInstalled | App.tsx:96-126 | picking an offered alternative by hand installs that id in every slot being replaced |
| App.FilteredDatabase | App.tsx:114-116 | an entry is in the view exactly when it is in the catalog and of the family; the view is the catalog filtered by family |
| App.FilteredDatabaseInCatalogOrder | App.tsx:114-116 | the family view is the catalog read at the positions of that family, in increasing order: catalog order and repetitions are kept |
| App.FavoriteItems | App.tsx:118-120 | an entry is in the view exactly when it is in the catalog and its id is a favourite; the view is the catalog filtered by that test |
| App.FavoriteItemsInCatalogOrder | App.tsx:118-120 | the favourites view is the catalog read at the favourite positions, in increasing order: catalog order and repetitions are kept |
| Lists.Toggle | App.tsx:68-72 | an absent value is appended at the end, a present one has every occurrence removed; so its membership flips, every other value's is unchanged, and a duplicate-free list stays duplicate-free |
| Lists.ToggleTwiceFromAbsent | App.tsx:68-72 | from a list without the value, toggling twice restores it |
| Lists.Remove | App.tsx:70 | the list filtered by "not the value": every occurrence of the value goes, every other value's membership stays |
| Lists.RemoveKeepsOrder | App.tsx:70 | the remaining elements are the list read at the positions not holding the value, in increasing order: order and multiplicity are kept |
| Lists.Find | App.tsx:99 | `find`: nothing exactly when no element passes; otherwise an element of the list that passes, with no passing element before it |
| Lists.KeptIndices | components/PerfumeTable.tsx:17 | the positions of a list whose element passes the predicate, strictly increasing, each in range, and a position is listed exactly when its element passes |
| Lists.FilterPicks | components/PerfumeTable.tsx:17 | `filter` keeps order and multiplicity: its result has one entry per kept position, and entry k is the list's element at the k-th kept position |
| Lists.Take | App.tsx:63 | `slice(0, n)`: a prefix of length n, or the whole list when shorter |
| CatalogMerge.Put | App.tsx:109 | setting one record keeps the key list duplicate-free and in step with the table |
| CatalogMerge.SetEach | App.tsx:108-109 | the `forEach(set)` loop yields exactly the map of successive sets |
| CatalogMerge.ReadValues | App.tsx:110 | the read-back loop yields the values in key insertion order |
| CatalogMerge.UpdateItemList | App.tsx:106-112 | the method yields exactly the functional merge |
| CatalogMerge.MergeByIdOrder | App.tsx:106-112 | result ids are the catalog's distinct ids in first-appearance order followed by the update's new ids in first-appearance order; no id twice |
| CatalogMerge.MergeByIdRecords | App.tsx:106-112 | an id is in the result exactly when it was in the catalog or the update; each record is the update's last one for its id, or else the catalog's last one |
| CatalogMerge.MergeExisting | App.tsx:106-112 | for a catalog with distinct ids and an update of known ids, every entry stays in place and is swapped for its last updated record if there is one |
| CatalogMerge.DedupConcat | App.tsx:108-110 | the first-appearance order of a concatenation is that of the first part followed by the second part's new elements |
| CatalogMerge.PutAllConcat | App.tsx:108-109 | setting two runs of records one after the other is setting their concatenation |
| CatalogMerge.LastWithIdConcat | App.tsx:108-109 | after a later run of sets, an id's value is the later run's last record if it has one, otherwise the earlier run's |
| PreferenceManager.LikeStep | components/PreferenceManager.tsx:13-29 | keeps the lists disjoint and duplicate-free; liked or disliked becomes neutral, neutral becomes liked; never adds to disliked; every other value unchanged |
| PreferenceManager.DislikeStep | components/PreferenceManager.tsx:31-44 | keeps the lists disjoint and duplicate-free; disliked becomes neutral, anything else becomes disliked and leaves liked; never adds to liked; every other value unchanged |
| PreferenceManager.LikeTwiceRestores | components/PreferenceManager.tsx:13-29 | two like clicks on a neutral value restore both lists exactly |
| PreferenceManager.DislikeTwiceRestores | components/PreferenceManager.tsx:31-44 | two dislike clicks on a neutral value restore both lists exactly |
| PreferenceManager.ToggleFamily | components/PreferenceManager.tsx:13-29 | the imperative handler computes the like step on the family lists and changes no other preference |
| PreferenceManager.ToggleDislikeFamily | components/PreferenceManager.tsx:31-44 | the imperative handler computes the dislike step on the family lists and changes no other preference |
| PreferenceManager.ToggleNote | components/PreferenceManager.tsx:53-78 | a like or dislike click computes the corresponding step on the note lists and changes no other preference |
| PreferenceManager.ClicksKeepInvariant | components/PreferenceManager.tsx:13-78 | every click keeps both pairs of lists disjoint and duplicate-free |
| PreferenceManager.ToggleGender | components/PreferenceManager.tsx:46-51 | the gender's membership flips; other genders and fields are unchanged |
| PreferenceManager.ToggleConcentration | components/PreferenceManager.tsx:221-225 | the concentration's membership flips; other values and fields are unchanged |
| PreferenceManager.SetPriceCeiling | components/PreferenceManager.tsx:154 | only the upper end of the price range changes; the lower end is kept |
| PreferenceManager.RaisingCeilingKeepsRecommendations | components/PreferenceManager.tsx:154 | raising the ceiling never drops a recommendation |
| PreferenceManager.SetMinLongevity | components/PreferenceManager.tsx:203 | only the minimum longevity changes |
| PreferenceManager.MinLongevityRespected | components/PreferenceManager.tsx:200-203 | after choosing a minimum of 1..5, every recommended item lasts at least that long |
| PerfumeTable.HandleDelete | components/PerfumeTable.tsx:15-19 | nothing is emitted exactly when not confirmed; otherwise the shown rows without that id, and no others, as the shown list filtered by id |
| PerfumeTable.HandleDeleteKeepsOrder | components/PerfumeTable.tsx:15-19 | a confirmed delete emits the shown list read at the positions whose id differs, in increasing order: the other rows keep their original order |
| PerfumeTable.ApplyEdit | components/PerfumeTable.tsx:23 | the edited cell holds the new value and every other field is unchanged |
| PerfumeTable.HandleEditChange | components/PerfumeTable.tsx:21-25 | same length, same ids in the same order; rows with another id unchanged; rows with the id change only the edited cell |
| PerfumeTable.EditReachesCatalog | components/PerfumeTable.tsx:21-25 | after the merge the catalog keeps its length and ids, and only the shown entry with the id changes, in that cell |
| PerfumeTable.MergeOwnRecords | App.tsx:106-112 | merging records the catalog already holds changes nothing |
| PerfumeTable.DeleteLeavesCatalog | components/PerfumeTable.tsx:17 | a confirmed delete merged into the catalog leaves it unchanged, deleted id included |
| PerfumeTable.DeleteRemovesFromCatalog | components/PerfumeTable.tsx:15-19 | with the corrected update a confirmed delete removes exactly that id's rows and keeps the rest in order |
| PerfumeTable.EditUnaffectedByCorrection | components/PerfumeTable.tsx:21-25 | the corrected update treats edits exactly as the merge does |
| AddPerfumeModal.InitialForm | components/AddPerfumeModal.tsx:13-25 | no name, brand, price or id yet; ratings 3; family Floral, gender Unisex, concentration EDP, occasion Day; note lists empty |
| AddPerfumeModal.SplitNotes | components/AddPerfumeModal.tsx:44 | one note more than commas; no note holds a comma; none starts or ends with whitespace |
| AddPerfumeModal.SplitNotesOfEmpty | components/AddPerfumeModal.tsx:44 | an empty field gives one empty note |
| AddPerfumeModal.SplitNotesPieces | components/AddPerfumeModal.tsx:44 | the notes are the trimmed comma pieces, and the untrimmed pieces joined by commas give back the input |
| AddPerfumeModal.HandleChange | components/AddPerfumeModal.tsx:39-54 | exactly the named field is set and every other field is kept; note fields get split notes, numeric fields the parsed number, others the text |
| AddPerfumeModal.NoteFieldChange | components/AddPerfumeModal.tsx:41-45 | a note field receives one note more than commas, none with a comma, and one empty note for empty input |
| Text.Split | components/AddPerfumeModal.tsx:44 | there is always at least one piece |
| Text.SplitJoin | components/AddPerfumeModal.tsx:44 | joining the pieces with the separator gives back the input |
| Text.Trim | components/AddPerfumeModal.tsx:44 | the result is the infix between a whitespace prefix and a whitespace suffix and neither starts nor ends with whitespace; it is empty exactly when the input is all whitespace |
| Text.Lower | services/perfumeExpertService.ts:30-32 | same length, each letter lower-cased |
| Text.LowerChar | services/perfumeExpertService.ts:30-32 | a capital A-Z maps to the lower-case letter at the same alphabet position; every other character is unchanged |
| Text.LowerContains | services/perfumeExpertService.ts:30-32 | lower-casing both sides keeps an occurrence |
| Text.JoinContains | services/perfumeExpertService.ts:30 | an occurrence in one element is an occurrence in the joined text |

## Left out

- Rendering, CSS, modal open and close state and the family icon maps: presentation only.
- `ReplacementModal` and `PerfumeModal` are presentation only and are not part of this model.
- `resetDatabase`: it is browser I/O only: a confirm dialog, `localStorage` and a page reload.
- `localStorage` persistence and JSON parsing are browser I/O.
- The `setTimeout` delays and the loading and analysed flags are UI timing. `fetchRecommendations` is the value it stores.
- `window.confirm` in the table's delete is a boolean parameter.
- `handleSubmit` of the add form is not modelled: it stamps the form with an id taken from the clock.
- `Number(...)` parsing in the add form is the `toNumber` parameter of `HandleChange`.
- Ratings and prices are integers. No floating-point parsing or arithmetic is modelled.
- `constants.ts` is not part of this model. The catalog and enumerations are parameters.
- Text.Lower: lower-cases ASCII letters only, not the full Unicode mapping of `toLowerCase`.
- Text.Trim: removes ASCII whitespace only, not every Unicode space that `trim` removes.
- The optional preference lists read with `?.` or `|| []` are plain lists. A missing list behaves exactly like an empty one.
- The source checks `minLongevity` for truthiness. The model reads it as `minLongevity != 0`, which is the same for integers.
- App workflows call the engine's reference function directly rather than taking the service object as an argument. The engine has no state, so nothing is lost.
- App.ManualReplace: carries no contract of its own. It is `InstallChoice` applied to the engine's answer with every displayed id but the replaced one excluded, and `InstallChoice` carries the contract.
- PerfumeTable.ApplyEdit: covers the four cells the table edits (name, brand, family, price), not an arbitrary `keyof Perfume` with an untyped value.
- AddPerfumeModal.InitialForm: the contract does not state the `season` default or that no other key exists, although the definition has both. Its note-list and rating defaults are what the rest of the form relies on.

## Findings

| source | as written | input that shows it | evidently intended | confidence | as-written member | corrected member |
|---|---|---|---|---|---|---|
| components/PerfumeTable.tsx:17 | the table emits the shown rows without the deleted id, and `updateItemList` only merges them into the catalog by id | a catalog holding `a` and `b`, the table showing both, and a confirmed delete of `a`: the merge sets `b` again and `a` stays | a confirmed delete removes the row with that id from the catalog | not executed | PerfumeTable.DeleteLeavesCatalog | PerfumeTable.DeleteRemovesFromCatalog (over PerfumeTable.UpdateShownItems) |
