/** The preference editor. Scent families and notes each carry a pair of
    lists, liked and disliked, which together give every value one of three
    states; a click and a double-click move a value between them. Gender and
    concentration are plain membership toggles; the price slider and the
    longevity buttons set one field. */
module PreferenceManager {
  import opened Types
  import opened Lists
  import opened ExpertService

  /** A liked list and a disliked list over the same kind of value. */
  datatype Opinions = Opinions(liked: seq<string>, disliked: seq<string>)

  datatype Status = Liked | Disliked | Neutral

  /** Liked wins when a value is on both lists, as the handlers test it first. */
  function StatusOf(o: Opinions, x: string): Status {
    if x in o.liked then Liked else if x in o.disliked then Disliked else Neutral
  }

  /** The invariant the editor keeps: no duplicates, and nothing both liked
      and disliked. */
  predicate WellKept(o: Opinions) {
    NoDup(o.liked) && NoDup(o.disliked) && forall x :: x in o.liked ==> x !in o.disliked
  }

  /** The click (`toggleFamily`, `toggleNote(note, 'like')`): liked and
      disliked both go back to neutral, neutral becomes liked. */
  function LikeStep(o: Opinions, x: string): (r: Opinions)
    ensures WellKept(o) ==> WellKept(r)
    ensures WellKept(o) ==> StatusOf(r, x) == (if StatusOf(o, x) == Neutral then Liked else Neutral)
    ensures forall y :: y in r.disliked ==> y in o.disliked
    ensures forall y :: y != x ==> (y in r.liked <==> y in o.liked) && (y in r.disliked <==> y in o.disliked)
  {
    if x in o.liked then Opinions(Remove(o.liked, x), o.disliked)
    else if x in o.disliked then Opinions(o.liked, Remove(o.disliked, x))
    else Opinions(Toggle(o.liked, x), o.disliked) // `x` is absent, so this appends it
  }

  /** The double-click (`toggleDislikeFamily`, `toggleNote(note, 'dislike')`):
      disliked goes back to neutral, anything else becomes disliked. */
  function DislikeStep(o: Opinions, x: string): (r: Opinions)
    ensures WellKept(o) ==> WellKept(r)
    ensures StatusOf(r, x) == (if x in o.disliked then (if x in o.liked then Liked else Neutral) else Disliked)
    ensures forall y :: y in r.liked ==> y in o.liked
    ensures forall y :: y != x ==> (y in r.liked <==> y in o.liked) && (y in r.disliked <==> y in o.disliked)
  {
    if x in o.disliked then Opinions(o.liked, Remove(o.disliked, x))
    else Opinions(Remove(o.liked, x), Toggle(o.disliked, x)) // appends the absent `x`
  }

  /** Two clicks on a neutral value leave both lists exactly as they were. */
  lemma LikeTwiceRestores(o: Opinions, x: string)
    requires StatusOf(o, x) == Neutral
    ensures LikeStep(LikeStep(o, x), x) == o
  {
    ToggleTwiceFromAbsent(o.liked, x);
  }

  /** Two double-clicks on a neutral value leave both lists exactly as they were. */
  lemma DislikeTwiceRestores(o: Opinions, x: string)
    requires StatusOf(o, x) == Neutral
    ensures DislikeStep(DislikeStep(o, x), x) == o
  {
    RemoveAbsent(o.liked, x);
    ToggleTwiceFromAbsent(o.disliked, x);
  }

  function Families(prefs: Preferences): Opinions {
    Opinions(prefs.likedFamilies, prefs.dislikedFamilies)
  }

  function Notes(prefs: Preferences): Opinions {
    Opinions(prefs.favoriteNotes, prefs.dislikedNotes)
  }

  function WithFamilies(prefs: Preferences, o: Opinions): Preferences {
    prefs.(likedFamilies := o.liked, dislikedFamilies := o.disliked)
  }

  function WithNotes(prefs: Preferences, o: Opinions): Preferences {
    prefs.(favoriteNotes := o.liked, dislikedNotes := o.disliked)
  }

  /** `toggleFamily`: copies both lists, edits one of them, writes both back. */
  method ToggleFamily(prefs: Preferences, family: string) returns (next: Preferences)
    ensures next == WithFamilies(prefs, LikeStep(Families(prefs), family))
  {
    var isLiked := family in prefs.likedFamilies;
    var isDisliked := family in prefs.dislikedFamilies;
    var newLiked := prefs.likedFamilies;
    var newDisliked := prefs.dislikedFamilies;
    if isLiked {
      newLiked := Remove(newLiked, family);
    } else if isDisliked {
      newDisliked := Remove(newDisliked, family);
    } else {
      newLiked := newLiked + [family];
    }
    next := prefs.(likedFamilies := newLiked, dislikedFamilies := newDisliked);
  }

  /** `toggleDislikeFamily`. */
  method ToggleDislikeFamily(prefs: Preferences, family: string) returns (next: Preferences)
    ensures next == WithFamilies(prefs, DislikeStep(Families(prefs), family))
  {
    var isDisliked := family in prefs.dislikedFamilies;
    var newDisliked := prefs.dislikedFamilies;
    var newLiked := prefs.likedFamilies;
    if isDisliked {
      newDisliked := Remove(newDisliked, family);
    } else {
      newDisliked := newDisliked + [family];
      newLiked := Remove(newLiked, family);
    }
    next := prefs.(likedFamilies := newLiked, dislikedFamilies := newDisliked);
  }

  datatype Click = Like | Dislike

  /** `toggleNote(note, type)`: the same two transitions over the favourite
      and disliked notes. */
  method ToggleNote(prefs: Preferences, note: string, click: Click) returns (next: Preferences)
    ensures click == Like ==> next == WithNotes(prefs, LikeStep(Notes(prefs), note))
    ensures click == Dislike ==> next == WithNotes(prefs, DislikeStep(Notes(prefs), note))
  {
    var isLiked := note in prefs.favoriteNotes;
    var isDisliked := note in prefs.dislikedNotes;
    var newLiked := prefs.favoriteNotes;
    var newDisliked := prefs.dislikedNotes;
    if click == Like {
      if isLiked {
        newLiked := Remove(newLiked, note);
      } else if isDisliked {
        newDisliked := Remove(newDisliked, note);
      } else {
        newLiked := newLiked + [note];
      }
    } else {
      if isDisliked {
        newDisliked := Remove(newDisliked, note);
      } else {
        newDisliked := newDisliked + [note];
        newLiked := Remove(newLiked, note);
      }
    }
    next := prefs.(favoriteNotes := newLiked, dislikedNotes := newDisliked);
  }

  /** Every family and note click keeps both pairs well kept. */
  lemma ClicksKeepInvariant(prefs: Preferences, x: string)
    requires WellKept(Families(prefs)) && WellKept(Notes(prefs))
    ensures WellKept(Families(WithFamilies(prefs, LikeStep(Families(prefs), x))))
    ensures WellKept(Families(WithFamilies(prefs, DislikeStep(Families(prefs), x))))
    ensures WellKept(Notes(WithNotes(prefs, LikeStep(Notes(prefs), x))))
    ensures WellKept(Notes(WithNotes(prefs, DislikeStep(Notes(prefs), x))))
    ensures WellKept(Notes(WithFamilies(prefs, LikeStep(Families(prefs), x))))
    ensures WellKept(Families(WithNotes(prefs, DislikeStep(Notes(prefs), x))))
  {
    assert Families(WithFamilies(prefs, LikeStep(Families(prefs), x))) == LikeStep(Families(prefs), x);
    assert Families(WithFamilies(prefs, DislikeStep(Families(prefs), x))) == DislikeStep(Families(prefs), x);
  }

  /** `toggleGender`: flips whether `gender` is preferred and changes nothing else. */
  function ToggleGender(prefs: Preferences, gender: string): (r: Preferences)
    ensures r == prefs.(preferredGender := r.preferredGender)
    ensures gender in r.preferredGender <==> gender !in prefs.preferredGender
    ensures forall g :: g != gender ==> (g in r.preferredGender <==> g in prefs.preferredGender)
  {
    prefs.(preferredGender := Toggle(prefs.preferredGender, gender))
  }

  /** The concentration buttons: flip whether `c` is preferred. */
  function ToggleConcentration(prefs: Preferences, c: string): (r: Preferences)
    ensures r == prefs.(preferredConcentration := r.preferredConcentration)
    ensures c in r.preferredConcentration <==> c !in prefs.preferredConcentration
    ensures forall x :: x != c ==> (x in r.preferredConcentration <==> x in prefs.preferredConcentration)
  {
    prefs.(preferredConcentration := Toggle(prefs.preferredConcentration, c))
  }

  /** The price slider: sets the ceiling, keeps the floor. */
  function SetPriceCeiling(prefs: Preferences, ceiling: int): (r: Preferences)
    ensures r.priceRange == (prefs.priceRange.0, ceiling)
    ensures r == prefs.(priceRange := r.priceRange)
  {
    prefs.(priceRange := (prefs.priceRange.0, ceiling))
  }

  /** Raising the ceiling never takes a recommendation away. */
  lemma RaisingCeilingKeepsRecommendations(items: seq<Perfume>, prefs: Preferences, excludedIds: seq<string>, ceiling: int)
    requires ceiling >= prefs.priceRange.1
    ensures forall r :: r in Recommend(items, prefs, excludedIds) ==>
      r in Recommend(items, SetPriceCeiling(prefs, ceiling), excludedIds)
  {
    RecommendMonotone(items, prefs, excludedIds, SetPriceCeiling(prefs, ceiling), excludedIds);
  }

  /** The longevity buttons: set the minimum longevity. */
  function SetMinLongevity(prefs: Preferences, v: int): (r: Preferences)
    ensures r.minLongevity == v
    ensures r == prefs.(minLongevity := r.minLongevity)
  {
    prefs.(minLongevity := v)
  }

  /** After choosing a minimum from the buttons (1 to 5), every
      recommendation lasts at least that long. */
  lemma MinLongevityRespected(items: seq<Perfume>, prefs: Preferences, excludedIds: seq<string>, v: int, r: Recommendation)
    requires 1 <= v <= 5
    requires r in Recommend(items, SetMinLongevity(prefs, v), excludedIds)
    ensures exists item :: item in items && item.id == r.perfumeId && item.longevity >= v
  {
    RecommendPassesFilters(items, SetMinLongevity(prefs, v), excludedIds, r);
  }
}
