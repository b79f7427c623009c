/** The catalog table. It shows one scent family's entries and hands every
    change back to the catalog as a whole list of shown rows, which the
    catalog merges by id. Delete asks for confirmation first; the answer is
    an input here. */
module PerfumeTable {
  import opened Types
  import opened Lists
  import opened CatalogMerge

  /** `handleDelete(id)`: when confirmed, the shown rows without that id, in
      order; otherwise nothing is emitted. */
  function HandleDelete(shown: seq<Perfume>, id: string, confirmed: bool): (r: Option<seq<Perfume>>)
    ensures !confirmed <==> r == None
    ensures r.Some? ==> |r.value| <= |shown| && id !in Ids(r.value)
    ensures r.Some? ==> forall x :: x in r.value <==> x in shown && x.id != id
    ensures r.Some? ==> r.value == Filter(shown, (i: Perfume) => i.id != id)
  {
    if confirmed then
      var rest := Filter(shown, (i: Perfume) => i.id != id);
      assert id !in Ids(rest) by {
        forall k | 0 <= k < |rest| ensures Ids(rest)[k] != id {
          assert rest[k] in rest;
        }
      }
      Some(rest)
    else None
  }

  /** A confirmed delete keeps the other rows in their original order: the
      result is the shown list read at the positions whose id differs. */
  lemma HandleDeleteKeepsOrder(shown: seq<Perfume>, id: string)
    ensures var idx := KeptIndices(shown, (i: Perfume) => i.id != id);
      HandleDelete(shown, id, true).Some? &&
      |HandleDelete(shown, id, true).value| == |idx| &&
      forall k :: 0 <= k < |idx| ==> HandleDelete(shown, id, true).value[k] == shown[idx[k]]
  {
    FilterPicks(shown, (i: Perfume) => i.id != id);
  }

  /** The cells the table edits. */
  datatype Field = Name | Brand | ScentFamily | Price

  /** One cell's new content, typed as the cell reads it. */
  datatype Edit = SetName(text: string) | SetBrand(text: string) | SetScentFamily(text: string) | SetPrice(amount: int)

  function FieldOf(e: Edit): Field {
    match e
    case SetName(_) => Name
    case SetBrand(_) => Brand
    case SetScentFamily(_) => ScentFamily
    case SetPrice(_) => Price
  }

  /** `a` and `b` agree on every field except possibly `f`. */
  predicate AgreeExcept(a: Perfume, b: Perfume, f: Field) {
    && a.id == b.id && a.gender == b.gender && a.concentration == b.concentration
    && a.topNotes == b.topNotes && a.middleNotes == b.middleNotes && a.baseNotes == b.baseNotes
    && a.longevity == b.longevity && a.sillage == b.sillage && a.intensity == b.intensity
    && a.season == b.season && a.occasion == b.occasion
    && (f != Name ==> a.name == b.name)
    && (f != Brand ==> a.brand == b.brand)
    && (f != ScentFamily ==> a.scentFamily == b.scentFamily)
    && (f != Price ==> a.price == b.price)
  }

  /** `b` carries the content `e` puts in its cell. */
  predicate Carries(b: Perfume, e: Edit) {
    match e
    case SetName(v) => b.name == v
    case SetBrand(v) => b.brand == v
    case SetScentFamily(v) => b.scentFamily == v
    case SetPrice(v) => b.price == v
  }

  /** `{ ...item, [field]: value }`. */
  function ApplyEdit(item: Perfume, e: Edit): (r: Perfume)
    ensures AgreeExcept(item, r, FieldOf(e)) && Carries(r, e)
  {
    match e
    case SetName(v) => item.(name := v)
    case SetBrand(v) => item.(brand := v)
    case SetScentFamily(v) => item.(scentFamily := v)
    case SetPrice(v) => item.(price := v)
  }

  /** `handleEditChange(id, field, value)`: every shown row with that id
      gets the edit, every other row is passed through untouched. */
  function HandleEditChange(shown: seq<Perfume>, id: string, e: Edit): (r: seq<Perfume>)
    ensures |r| == |shown| && Ids(r) == Ids(shown)
    ensures forall k :: 0 <= k < |shown| && shown[k].id != id ==> r[k] == shown[k]
    ensures forall k :: 0 <= k < |shown| && shown[k].id == id ==> AgreeExcept(shown[k], r[k], FieldOf(e)) && Carries(r[k], e)
  {
    seq(|shown|, k requires 0 <= k < |shown| => if shown[k].id == id then ApplyEdit(shown[k], e) else shown[k])
  }

  // ------------------------------------------------------- table and catalog

  /** In a catalog of distinct ids a record with `catalog[k]`'s id that the
      catalog holds is `catalog[k]` itself. */
  lemma SameIdSameRecord(catalog: seq<Perfume>, k: nat, x: Perfume)
    requires NoDup(Ids(catalog)) && k < |catalog|
    requires x in catalog && x.id == catalog[k].id
    ensures x == catalog[k]
  {
    var j :| 0 <= j < |catalog| && catalog[j] == x;
    assert Ids(catalog)[j] == Ids(catalog)[k];
  }

  lemma {:induction false} LastWithIdEdited(shown: seq<Perfume>, id: string, e: Edit, cid: string)
    requires cid in Ids(shown)
    ensures cid in Ids(HandleEditChange(shown, id, e))
    ensures LastWithId(HandleEditChange(shown, id, e), cid)
         == if cid == id then ApplyEdit(LastWithId(shown, cid), e) else LastWithId(shown, cid)
  {
    var edited := HandleEditChange(shown, id, e);
    var init := shown[..|shown| - 1];
    assert edited[..|edited| - 1] == HandleEditChange(init, id, e);
    if shown[|shown| - 1].id != cid {
      SnocSplit(shown);
      IdsSnoc(init, shown[|shown| - 1]);
      LastWithIdEdited(init, id, e, cid);
    }
  }

  /** Rows taken from a catalog of distinct ids are found in it by id. */
  lemma ShownIdsInCatalog(catalog: seq<Perfume>, shown: seq<Perfume>)
    requires forall x :: x in shown ==> x in catalog
    ensures forall x :: x in shown ==> x.id in Ids(catalog)
  {
    forall x | x in shown ensures x.id in Ids(catalog) {
      var j :| 0 <= j < |catalog| && catalog[j] == x;
      assert Ids(catalog)[j] == x.id;
    }
  }

  /** An edit in the table reaches the catalog: the catalog keeps its length
      and order, the edited entry changes in that cell only, and nothing else
      changes. */
  lemma EditReachesCatalog(catalog: seq<Perfume>, shown: seq<Perfume>, id: string, e: Edit)
    requires NoDup(Ids(catalog))
    requires forall x :: x in shown ==> x in catalog
    ensures var merged := MergeById(catalog, HandleEditChange(shown, id, e));
      && |merged| == |catalog| && Ids(merged) == Ids(catalog)
      && forall k :: 0 <= k < |catalog| ==>
           merged[k] == if catalog[k].id == id && catalog[k] in shown then ApplyEdit(catalog[k], e) else catalog[k]
  {
    var edited := HandleEditChange(shown, id, e);
    ShownIdsInCatalog(catalog, shown);
    forall x | x in edited ensures x.id in Ids(catalog) {
      var j :| 0 <= j < |edited| && edited[j] == x;
      assert shown[j] in shown && Ids(edited)[j] == Ids(shown)[j];
    }
    MergeExisting(catalog, edited);
    MergeExistingIds(catalog, edited);
    var merged := MergeById(catalog, edited);
    forall k | 0 <= k < |catalog|
      ensures merged[k] == if catalog[k].id == id && catalog[k] in shown then ApplyEdit(catalog[k], e) else catalog[k]
    {
      var cid := catalog[k].id;
      if cid in Ids(shown) {
        LastWithIdEdited(shown, id, e, cid);
        SameIdSameRecord(catalog, k, LastWithId(shown, cid));
      } else {
        assert catalog[k] !in shown;
      }
    }
  }

  /** Merging records the catalog already holds changes nothing. */
  lemma MergeOwnRecords(catalog: seq<Perfume>, xs: seq<Perfume>)
    requires NoDup(Ids(catalog))
    requires forall x :: x in xs ==> x in catalog
    ensures MergeById(catalog, xs) == catalog
  {
    ShownIdsInCatalog(catalog, xs);
    MergeExisting(catalog, xs);
    var merged := MergeById(catalog, xs);
    forall k | 0 <= k < |catalog| ensures merged[k] == catalog[k] {
      if catalog[k].id in Ids(xs) {
        SameIdSameRecord(catalog, k, LastWithId(xs, catalog[k].id));
      }
    }
  }

  /** The table's delete does not delete: merging the rows that remain
      changes nothing, so the deleted id is still in the catalog. */
  lemma DeleteLeavesCatalog(catalog: seq<Perfume>, shown: seq<Perfume>, id: string)
    requires NoDup(Ids(catalog))
    requires forall x :: x in shown ==> x in catalog
    ensures HandleDelete(shown, id, true).Some?
    ensures MergeById(catalog, HandleDelete(shown, id, true).value) == catalog
    ensures id in Ids(catalog) ==> id in Ids(MergeById(catalog, HandleDelete(shown, id, true).value))
  {
    MergeOwnRecords(catalog, HandleDelete(shown, id, true).value);
  }

  /** Filtering a catalog of distinct ids leaves distinct ids. */
  lemma {:induction false} FilterDistinctIds(s: seq<Perfume>, p: Perfume -> bool)
    requires NoDup(Ids(s))
    ensures NoDup(Ids(Filter(s, p)))
  {
    if s != [] {
      var tail := s[1..];
      assert NoDup(Ids(tail)) by {
        forall i, j | 0 <= i < j < |tail| ensures Ids(tail)[i] != Ids(tail)[j] {
          assert Ids(tail)[i] == Ids(s)[i + 1] && Ids(tail)[j] == Ids(s)[j + 1];
        }
      }
      FilterDistinctIds(tail, p);
      var f := Filter(tail, p);
      if p(s[0]) {
        assert s[0].id !in Ids(f) by {
          forall i | 0 <= i < |f| ensures Ids(f)[i] != s[0].id {
            assert f[i] in tail;
            var j :| 0 <= j < |tail| && tail[j] == f[i];
            assert Ids(s)[j + 1] == f[i].id && Ids(s)[0] == s[0].id;
          }
        }
        NoDupCons(s[0].id, Ids(f));
        assert Ids([s[0]] + f) == [s[0].id] + Ids(f);
      } else {
        assert [] + f == f;
      }
    }
  }

  /** Updating the catalog from the table as intended: the shown rows that
      the table no longer emits leave the catalog, and the emitted ones are
      merged by id. */
  function UpdateShownItems(catalog: seq<Perfume>, shown: seq<Perfume>, emitted: seq<Perfume>): seq<Perfume> {
    MergeById(Filter(catalog, (x: Perfume) => x.id !in Ids(shown) || x.id in Ids(emitted)), emitted)
  }

  /** With the intended update a confirmed delete removes exactly the rows
      with that id from the catalog and keeps the rest in order. */
  lemma DeleteRemovesFromCatalog(catalog: seq<Perfume>, shown: seq<Perfume>, id: string)
    requires NoDup(Ids(catalog))
    requires forall x :: x in shown ==> x in catalog
    requires id in Ids(shown)
    ensures HandleDelete(shown, id, true).Some?
    ensures UpdateShownItems(catalog, shown, HandleDelete(shown, id, true).value)
         == Filter(catalog, (x: Perfume) => x.id != id)
  {
    var rest := HandleDelete(shown, id, true).value;
    var keep := (x: Perfume) => x.id !in Ids(shown) || x.id in Ids(rest);
    var other := (x: Perfume) => x.id != id;
    forall x | x in catalog ensures keep(x) == other(x) {
      if x.id in Ids(shown) && x.id != id {
        var j :| 0 <= j < |shown| && Ids(shown)[j] == x.id;
        assert shown[j] in rest;
        var i :| 0 <= i < |rest| && rest[i] == shown[j];
        assert Ids(rest)[i] == x.id;
      }
    }
    FilterCongruent(catalog, keep, other);
    var kept := Filter(catalog, other);
    FilterDistinctIds(catalog, other);
    MergeOwnRecords(kept, rest);
  }

  /** The intended update handles edits exactly as the merge does. */
  lemma EditUnaffectedByCorrection(catalog: seq<Perfume>, shown: seq<Perfume>, id: string, e: Edit)
    ensures UpdateShownItems(catalog, shown, HandleEditChange(shown, id, e))
         == MergeById(catalog, HandleEditChange(shown, id, e))
  {
    var edited := HandleEditChange(shown, id, e);
    FilterKeepsAll(catalog, (x: Perfume) => x.id !in Ids(shown) || x.id in Ids(edited));
  }
}
