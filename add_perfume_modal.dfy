/** The form for adding a perfume. The form is a partial record: a map from
    field name to the value typed so far. Comma-separated note fields become
    lists of trimmed notes; the rating and price fields become numbers. */
module AddPerfumeModal {
  import opened Text

  datatype FormValue = TextValue(text: string) | NumberValue(number: int) | ListValue(items: seq<string>)

  type Form = map<string, FormValue>

  /** The form's starting content. Name, brand and price have no value until
      the user types one. */
  function InitialForm(): (f: Form)
    ensures "name" !in f && "brand" !in f && "price" !in f && "id" !in f
    ensures forall k :: k in f && IsNumericField(k) ==> f[k] == NumberValue(3)
    ensures forall k :: k in ["topNotes", "middleNotes", "baseNotes"] ==> k in f && f[k] == ListValue([])
    ensures forall k :: k in ["longevity", "sillage", "intensity"] ==> k in f
    ensures "scentFamily" in f && f["scentFamily"] == TextValue("Floral")
    ensures "gender" in f && f["gender"] == TextValue("Unisex")
    ensures "concentration" in f && f["concentration"] == TextValue("EDP")
    ensures "occasion" in f && f["occasion"] == TextValue("Day")
  {
    map[
      "scentFamily" := TextValue("Floral"),
      "gender" := TextValue("Unisex"),
      "concentration" := TextValue("EDP"),
      "longevity" := NumberValue(3),
      "sillage" := NumberValue(3),
      "intensity" := NumberValue(3),
      "topNotes" := ListValue([]),
      "middleNotes" := ListValue([]),
      "baseNotes" := ListValue([]),
      "season" := ListValue(["Spring", "Autumn"]),
      "occasion" := TextValue("Day")
    ]
  }

  /** `value.split(',').map(n => n.trim())`. */
  function SplitNotes(value: string): (r: seq<string>)
    ensures |r| == Count(value, ',') + 1
    ensures forall k :: 0 <= k < |r| ==> ',' !in r[k]
    ensures forall k :: 0 <= k < |r| ==> r[k] == [] || (!IsSpace(r[k][0]) && !IsSpace(r[k][|r[k]| - 1]))
  {
    var pieces := Split(value, ',');
    SplitCount(value, ',');
    SplitPiecesAreSeparatorFree(value, ',');
    seq(|pieces|, k requires 0 <= k < |pieces| => Trim(pieces[k]))
  }

  /** An empty note field holds one empty note, not none. */
  lemma SplitNotesOfEmpty()
    ensures SplitNotes("") == [""]
  {
    assert Split("", ',') == [""];
    assert AllSpace("");
  }

  /** The notes are the trimmed pieces between commas, and joining the
      untrimmed pieces with commas gives back what was typed. */
  lemma SplitNotesPieces(value: string)
    ensures |SplitNotes(value)| == |Split(value, ',')|
    ensures forall k :: 0 <= k < |SplitNotes(value)| ==> SplitNotes(value)[k] == Trim(Split(value, ',')[k])
    ensures Join(Split(value, ','), ",") == value
  {
    SplitJoin(value, ',');
  }

  predicate IsNumericField(name: string) {
    name in ["price", "longevity", "sillage", "intensity"]
  }

  /** `handleChange`: sets the one field named `name` and keeps the others.
      A name containing "Notes" takes a list of trimmed notes, a numeric
      field takes `toNumber(value)` (the browser's `Number`), any other field
      the text itself. */
  function HandleChange(form: Form, name: string, value: string, toNumber: string -> int): (r: Form)
    ensures r.Keys == form.Keys + {name}
    ensures forall k :: k in form && k != name ==> r[k] == form[k]
    ensures Contains(name, "Notes") ==> r[name].ListValue? && r[name].items == SplitNotes(value)
    ensures !Contains(name, "Notes") && IsNumericField(name) ==> r[name] == NumberValue(toNumber(value))
    ensures !Contains(name, "Notes") && !IsNumericField(name) ==> r[name] == TextValue(value)
  {
    if Contains(name, "Notes") then form[name := ListValue(SplitNotes(value))]
    else if IsNumericField(name) then form[name := NumberValue(toNumber(value))]
    else form[name := TextValue(value)]
  }

  /** Typing in a note field never leaves a note with a comma or with
      surrounding whitespace; an empty field gives one empty note. */
  lemma NoteFieldChange(form: Form, name: string, value: string, toNumber: string -> int)
    requires Contains(name, "Notes")
    ensures var notes := HandleChange(form, name, value, toNumber)[name].items;
      && |notes| == Count(value, ',') + 1
      && (forall k :: 0 <= k < |notes| ==> ',' !in notes[k])
      && (value == "" ==> notes == [""])
  {
    if value == "" { SplitNotesOfEmpty(); }
  }
}
