/** The explanation attached to every recommendation: a fixed template of an
    intro chosen by score band, a sentence on scent family and longevity, a
    sentence on notes, and an occasion sentence. The Ukrainian wording is
    kept as the app emits it. */
module Explanation {
  import opened Types
  import opened Text
  import opened Lists

  const IdealIntro: string := "Цей аромат — ваше ідеальне втілення! "
  const GreatIntro: string := "Чудовий вибір, що ідеально доповнить ваш образ. "
  const NeutralIntro: string := "Цікавий варіант з багатогранним звучанням. "
  const FallbackLongevity: string := "приємну"
  const EverydayUse: string := "щоденного використання"

  /** The explanation's matching rule: the favourite note occurs, ignoring
      case, inside a single catalog note. (Scoring uses the opposite
      direction over a joined text.) */
  predicate NoteMatchesFavorite(catalogNote: string, favorite: string) {
    Contains(Lower(catalogNote), Lower(favorite))
  }

  predicate MatchesSomeNote(item: Perfume, favorite: string) {
    exists note :: note in AllNotes(item) && NoteMatchesFavorite(note, favorite)
  }

  /** The favourite notes, in preference order, that some top, middle or
      base note of the item contains. */
  function MatchedNotes(item: Perfume, prefs: Preferences): (r: seq<string>)
    ensures forall n :: n in r <==> n in prefs.favoriteNotes && MatchesSomeNote(item, n)
    ensures r == Filter(prefs.favoriteNotes, n => MatchesSomeNote(item, n))
  {
    Filter(prefs.favoriteNotes, n => MatchesSomeNote(item, n))
  }

  /** The matched notes are the favourite list read at the positions whose
      note matches, so they keep the preference order and repetitions. */
  lemma MatchedNotesInPreferenceOrder(item: Perfume, prefs: Preferences)
    ensures var idx := KeptIndices(prefs.favoriteNotes, n => MatchesSomeNote(item, n));
      |MatchedNotes(item, prefs)| == |idx| &&
      forall k :: 0 <= k < |idx| ==> MatchedNotes(item, prefs)[k] == prefs.favoriteNotes[idx[k]]
  {
    FilterPicks(prefs.favoriteNotes, n => MatchesSomeNote(item, n));
  }

  function Intro(score: int): string {
    if score > 80 then IdealIntro else if score > 60 then GreatIntro else NeutralIntro
  }

  /** The lookup table for ratings 1-5, with the fallback for any other value. */
  function LongevityPhrase(longevity: int): string {
    if longevity == 1 then "тонкою та легкою"
    else if longevity == 2 then "помірною"
    else if longevity == 3 then "хорошою"
    else if longevity == 4 then "тривалою"
    else if longevity == 5 then "вражаючою"
    else FallbackLongevity
  }

  function OccasionPhrase(occasion: string): string {
    if occasion == "Office" then "ділових зустрічей"
    else if occasion == "Date" then "романтичних вечорів"
    else if occasion == "Night" then "вечірніх виходів"
    else EverydayUse
  }

  function FamilySentence(item: Perfume): string {
    "Цей " + Lower(item.scentFamily) + " аромат має " + LongevityPhrase(item.longevity) + " стійкість. "
  }

  function MatchedNotesSentence(matched: seq<string>): string {
    "Ви точно оціните ваші улюблені ноти: " + Join(Take(matched, 3), ", ") + ". "
  }

  function TopNotesSentence(item: Perfume): string {
    "Вас може зацікавити поєднання " + Join(Take(item.topNotes, 2), " та ") + " у верхніх нотах. "
  }

  function NotesSentence(item: Perfume, prefs: Preferences): string {
    var matched := MatchedNotes(item, prefs);
    if |matched| > 0 then MatchedNotesSentence(matched) else TopNotesSentence(item)
  }

  function Pairing(occasion: string): string {
    "Найкраще підходить для " + OccasionPhrase(occasion) + "."
  }

  /** The whole explanation: intro, then analysis, then pairing. */
  function Explain(item: Perfume, prefs: Preferences, score: int): string {
    Intro(score) + FamilySentence(item) + NotesSentence(item, prefs) + Pairing(item.occasion)
  }

  /** `generateExplanation`, building the analysis part by appending. */
  method GenerateExplanation(item: Perfume, prefs: Preferences, score: int) returns (text: string)
    ensures text == Explain(item, prefs, score)
  {
    var matchedNotes := MatchedNotes(item, prefs);
    var intro := Intro(score);
    var analysis := FamilySentence(item);
    if |matchedNotes| > 0 {
      analysis := analysis + MatchedNotesSentence(matchedNotes);
    } else {
      analysis := analysis + TopNotesSentence(item);
    }
    assert analysis == FamilySentence(item) + NotesSentence(item, prefs);
    var pairing := Pairing(item.occasion);
    text := intro + analysis + pairing;
  }

  /** The three intro bands: above 80, above 60 up to 80, and 60 or less. */
  lemma IntroBands(score: int)
    ensures Intro(score) == IdealIntro <==> score > 80
    ensures Intro(score) == GreatIntro <==> 60 < score <= 80
    ensures Intro(score) == NeutralIntro <==> score <= 60
  {
    assert |IdealIntro| != |GreatIntro| && |GreatIntro| != |NeutralIntro| && |IdealIntro| != |NeutralIntro|;
  }

  /** Ratings 1-5 each have their own phrase; every other value falls back. */
  lemma LongevityLookup(longevity: int, other: int)
    ensures LongevityPhrase(longevity) == FallbackLongevity <==> !(1 <= longevity <= 5)
    ensures 1 <= longevity <= 5 && 1 <= other <= 5 && longevity != other ==>
              LongevityPhrase(longevity) != LongevityPhrase(other)
  {
    assert |"тонкою та легкою"| == 16 && |"помірною"| == 8 && |"хорошою"| == 7;
    assert |"тривалою"| == 8 && |"вражаючою"| == 9 && |FallbackLongevity| == 7;
    assert "помірною"[0] != "тривалою"[0];
    assert "хорошою"[0] != FallbackLongevity[0];
  }

  /** Office, Date and Night have their own phrase; everything else is
      everyday use. */
  lemma OccasionLookup(occasion: string)
    ensures OccasionPhrase(occasion) == EverydayUse <==> occasion !in {"Office", "Date", "Night"}
  {
    assert |"ділових зустрічей"| != |EverydayUse|;
    assert |"романтичних вечорів"| != |EverydayUse|;
    assert |"вечірніх виходів"| != |EverydayUse|;
  }

  /** Each of the four parts sits inside the explanation, in order. */
  lemma ExplainParts(item: Perfume, prefs: Preferences, score: int)
    ensures var e := Explain(item, prefs, score);
      && e[..|Intro(score)|] == Intro(score)
      && Contains(e, FamilySentence(item))
      && Contains(e, NotesSentence(item, prefs))
      && e[|e| - |Pairing(item.occasion)|..] == Pairing(item.occasion)
      && Contains(e, Pairing(item.occasion))
  {
    FourParts(Intro(score), FamilySentence(item), NotesSentence(item, prefs), Pairing(item.occasion));
  }

  lemma FamilySentenceMentions(item: Perfume)
    ensures Contains(FamilySentence(item), Lower(item.scentFamily))
    ensures Contains(FamilySentence(item), LongevityPhrase(item.longevity))
  {
    var lf, lp := Lower(item.scentFamily), LongevityPhrase(item.longevity);
    ContainsSelf(lf);
    ContainsSelf(lp);
    ContainsInfix("Цей ", lf, " аромат має " + lp + " стійкість. ", lf);
    assert "Цей " + lf + (" аромат має " + lp + " стійкість. ") == FamilySentence(item);
    ContainsInfix("Цей " + lf + " аромат має ", lp, " стійкість. ", lp);
  }

  lemma PairingMentions(occasion: string)
    ensures Contains(Pairing(occasion), OccasionPhrase(occasion))
  {
    var op := OccasionPhrase(occasion);
    ContainsSelf(op);
    ContainsInfix("Найкраще підходить для ", op, ".", op);
  }

  lemma NotesSentenceMentions(item: Perfume, prefs: Preferences)
    ensures forall k :: 0 <= k < |MatchedNotes(item, prefs)| && k < 3 ==>
              Contains(NotesSentence(item, prefs), MatchedNotes(item, prefs)[k])
    ensures |MatchedNotes(item, prefs)| == 0 ==>
              forall k :: 0 <= k < |item.topNotes| && k < 2 ==> Contains(NotesSentence(item, prefs), item.topNotes[k])
  {
    var matched := MatchedNotes(item, prefs);
    if |matched| > 0 {
      var listed := Take(matched, 3);
      forall k | 0 <= k < |matched| && k < 3 ensures Contains(NotesSentence(item, prefs), matched[k]) {
        ContainsSelf(listed[k]);
        JoinContains(listed, ", ", k, listed[k]);
        ContainsInfix("Ви точно оціните ваші улюблені ноти: ", Join(listed, ", "), ". ", listed[k]);
      }
    } else {
      var listed := Take(item.topNotes, 2);
      forall k | 0 <= k < |item.topNotes| && k < 2 ensures Contains(NotesSentence(item, prefs), item.topNotes[k]) {
        ContainsSelf(listed[k]);
        JoinContains(listed, " та ", k, listed[k]);
        ContainsInfix("Вас може зацікавити поєднання ", Join(listed, " та "), " у верхніх нотах. ", listed[k]);
      }
    }
  }

  /** What the explanation mentions: the lower-cased family, the longevity
      phrase, the occasion phrase, the first three matched favourite notes or,
      when none matched, the first two top notes. */
  lemma ExplainMentions(item: Perfume, prefs: Preferences, score: int)
    ensures var e := Explain(item, prefs, score);
      && Contains(e, Lower(item.scentFamily))
      && Contains(e, LongevityPhrase(item.longevity))
      && Contains(e, OccasionPhrase(item.occasion))
      && (forall k :: 0 <= k < |MatchedNotes(item, prefs)| && k < 3 ==> Contains(e, MatchedNotes(item, prefs)[k]))
      && (|MatchedNotes(item, prefs)| == 0 ==>
            forall k :: 0 <= k < |item.topNotes| && k < 2 ==> Contains(e, item.topNotes[k]))
  {
    var e := Explain(item, prefs, score);
    var fam, notes, pair := FamilySentence(item), NotesSentence(item, prefs), Pairing(item.occasion);
    ExplainParts(item, prefs, score);
    FamilySentenceMentions(item);
    PairingMentions(item.occasion);
    NotesSentenceMentions(item, prefs);
    ContainsInTransitive(e, fam, Lower(item.scentFamily));
    ContainsInTransitive(e, fam, LongevityPhrase(item.longevity));
    ContainsInTransitive(e, pair, OccasionPhrase(item.occasion));
    var matched := MatchedNotes(item, prefs);
    forall k | 0 <= k < |matched| && k < 3 ensures Contains(e, matched[k]) {
      ContainsInTransitive(e, notes, matched[k]);
    }
    if |matched| == 0 {
      forall k | 0 <= k < |item.topNotes| && k < 2 ensures Contains(e, item.topNotes[k]) {
        ContainsInTransitive(e, notes, item.topNotes[k]);
      }
    }
  }
}
