/** The records the app passes around: a catalog entry, the user's
    preference profile and one ranked recommendation. Enumerated string
    fields (gender, concentration, occasion, season) stay strings, as they
    are at run time; ratings and prices are integers. */
module Types {

  datatype Perfume = Perfume(
    id: string,
    name: string,
    brand: string,
    gender: string,          // 'Male' | 'Female' | 'Unisex'
    concentration: string,   // 'EDP' | 'EDT' | 'EDC' | 'Parfum' | 'Cologne' | 'Extrait'
    scentFamily: string,
    topNotes: seq<string>,
    middleNotes: seq<string>,
    baseNotes: seq<string>,
    longevity: int,          // 1-5 by convention, never checked
    sillage: int,            // 1-5 by convention, never checked
    intensity: int,          // 1-5 by convention, never checked
    price: int,
    season: seq<string>,
    occasion: string)        // 'Day' | 'Night' | 'Office' | 'Date' | 'Special'

  /** `priceRange` is the pair `[min, max]`. The lists the service guards
      with `|| []` or `&&` are plain lists here: a missing list behaves
      exactly like an empty one. */
  datatype Preferences = Preferences(
    likedFamilies: seq<string>,
    dislikedFamilies: seq<string>,
    priceRange: (int, int),
    preferredGender: seq<string>,
    favoriteNotes: seq<string>,
    dislikedNotes: seq<string>,
    preferredBrands: seq<string>,
    minLongevity: int,
    preferredConcentration: seq<string>)

  datatype Recommendation = Recommendation(perfumeId: string, explanation: string, score: int)

  /** All notes of an item, top first. */
  function AllNotes(item: Perfume): seq<string> {
    item.topNotes + item.middleNotes + item.baseNotes
  }

  /** `items.map(i => i.id)`. */
  function Ids(items: seq<Perfume>): (r: seq<string>)
    ensures |r| == |items|
    ensures forall k :: 0 <= k < |items| ==> r[k] == items[k].id
  {
    seq(|items|, k requires 0 <= k < |items| => items[k].id)
  }

  /** `recs.map(r => r.perfumeId)`. */
  function RecIds(recs: seq<Recommendation>): (r: seq<string>)
    ensures |r| == |recs|
    ensures forall k :: 0 <= k < |recs| ==> r[k] == recs[k].perfumeId
  {
    seq(|recs|, k requires 0 <= k < |recs| => recs[k].perfumeId)
  }
}
