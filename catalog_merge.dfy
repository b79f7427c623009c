/** `updateItemList`: the catalog is loaded into a JavaScript `Map` keyed by
    id, every edited record is `set` into it, and the map's values are read
    back in insertion order. A `Map` is modelled by its keys in insertion
    order together with the key-to-record table. */
module CatalogMerge {
  import opened Types
  import opened Lists

  datatype IdMap = IdMap(keys: seq<string>, table: map<string, Perfume>)

  const EmptyMap := IdMap([], map[])

  /** Keys are unique and are exactly the table's domain. */
  predicate Valid(m: IdMap) {
    NoDup(m.keys) && m.table.Keys == set id | id in m.keys
  }

  /** `m.set(p.id, p)`: a new key goes to the end, a known key keeps its place. */
  function Put(m: IdMap, p: Perfume): (r: IdMap)
    ensures Valid(m) ==> Valid(r)
  {
    if p.id in m.table then IdMap(m.keys, m.table[p.id := p])
    else
      assert Valid(m) ==> NoDup(m.keys + [p.id]) by {
        if Valid(m) { NoDupSnoc(m.keys, p.id); }
      }
      IdMap(m.keys + [p.id], m.table[p.id := p])
  }

  /** `xs.forEach(i => m.set(i.id, i))`. */
  function PutAll(m: IdMap, xs: seq<Perfume>): (r: IdMap)
    ensures Valid(m) ==> Valid(r)
  {
    if xs == [] then m else Put(PutAll(m, xs[..|xs| - 1]), xs[|xs| - 1])
  }

  /** `Array.from(m.values())`. */
  function ValuesOf(m: IdMap): (r: seq<Perfume>)
    requires Valid(m)
    ensures |r| == |m.keys|
  {
    seq(|m.keys|, k requires 0 <= k < |m.keys| => m.table[m.keys[k]])
  }

  /** The catalog after `updateItemList(updated)`. */
  function MergeById(prev: seq<Perfume>, updated: seq<Perfume>): seq<Perfume> {
    ValuesOf(PutAll(PutAll(EmptyMap, prev), updated))
  }

  /** The `forEach` loop that sets every record of `xs` into the map. */
  method SetEach(keys0: seq<string>, table0: map<string, Perfume>, xs: seq<Perfume>)
    returns (keys: seq<string>, table: map<string, Perfume>)
    ensures IdMap(keys, table) == PutAll(IdMap(keys0, table0), xs)
  {
    keys, table := keys0, table0;
    for i := 0 to |xs|
      invariant IdMap(keys, table) == PutAll(IdMap(keys0, table0), xs[..i])
    {
      assert xs[..i + 1][..i] == xs[..i];
      var p := xs[i];
      if p.id !in table {
        keys := keys + [p.id];
      }
      table := table[p.id := p];
    }
    assert xs[..|xs|] == xs;
  }

  /** `Array.from(m.values())`, one value at a time in key order. */
  method ReadValues(keys: seq<string>, table: map<string, Perfume>) returns (result: seq<Perfume>)
    requires Valid(IdMap(keys, table))
    ensures result == ValuesOf(IdMap(keys, table))
  {
    result := [];
    for i := 0 to |keys|
      invariant |result| == i
      invariant forall k :: 0 <= k < i ==> result[k] == table[keys[k]]
    {
      result := result + [table[keys[i]]];
    }
  }

  /** `updateItemList` as the app runs it: build the map from the current
      catalog, set every updated record, read the values back. */
  method UpdateItemList(prev: seq<Perfume>, updated: seq<Perfume>) returns (result: seq<Perfume>)
    ensures result == MergeById(prev, updated)
  {
    var keys, table := SetEach([], map[], prev);
    keys, table := SetEach(keys, table, updated);
    result := ReadValues(keys, table);
  }

  // ---------------------------------------------------------------- reference

  /** The distinct elements of `s`, each at its first occurrence. */
  function Dedup(s: seq<string>): seq<string> {
    if s == [] then []
    else
      var init, x := s[..|s| - 1], s[|s| - 1];
      if x in init then Dedup(init) else Dedup(init) + [x]
  }

  lemma {:induction false} DedupMembers(s: seq<string>)
    ensures forall x :: x in Dedup(s) <==> x in s
  {
    if s != [] {
      DedupMembers(s[..|s| - 1]);
      assert s == s[..|s| - 1] + [s[|s| - 1]];
    }
  }

  lemma {:induction false} DedupNoDup(s: seq<string>)
    ensures NoDup(Dedup(s))
  {
    if s != [] {
      DedupNoDup(s[..|s| - 1]);
      DedupMembers(s[..|s| - 1]);
      if s[|s| - 1] !in s[..|s| - 1] {
        NoDupSnoc(Dedup(s[..|s| - 1]), s[|s| - 1]);
      }
    }
  }

  /** The last record in `xs` with the given id. */
  function LastWithId(xs: seq<Perfume>, id: string): (r: Perfume)
    requires id in Ids(xs)
    ensures r in xs && r.id == id
  {
    var init, last := xs[..|xs| - 1], xs[|xs| - 1];
    if last.id == id then last
    else
      assert id in Ids(init) by { IdsSnoc(init, last); assert xs == init + [last]; }
      LastWithId(init, id)
  }

  lemma IdsSnoc(xs: seq<Perfume>, x: Perfume)
    ensures Ids(xs + [x]) == Ids(xs) + [x.id]
  {
  }

  lemma IdsConcat(a: seq<Perfume>, b: seq<Perfume>)
    ensures Ids(a + b) == Ids(a) + Ids(b)
  {
  }

  /** Loading `xs` into an empty map keeps each id once, at its first position. */
  lemma {:induction false} PutAllKeys(xs: seq<Perfume>)
    ensures PutAll(EmptyMap, xs).keys == Dedup(Ids(xs))
  {
    if xs != [] {
      var init, last := xs[..|xs| - 1], xs[|xs| - 1];
      PutAllKeys(init);
      SnocSplit(xs);
      IdsSnoc(init, last);
      DedupSnoc(Ids(init), last.id);
      DedupMembers(Ids(init));
      assert Valid(PutAll(EmptyMap, init));
    }
  }

  /** ... and binds each id to the last record carrying it. */
  lemma {:induction false} PutAllTable(xs: seq<Perfume>, id: string)
    requires id in Ids(xs)
    ensures id in PutAll(EmptyMap, xs).table
    ensures PutAll(EmptyMap, xs).table[id] == LastWithId(xs, id)
  {
    var init, last := xs[..|xs| - 1], xs[|xs| - 1];
    assert xs == init + [last];
    IdsSnoc(init, last);
    if last.id != id {
      PutAllTable(init, id);
    }
  }

  lemma {:induction false} PutAllConcat(m: IdMap, a: seq<Perfume>, b: seq<Perfume>)
    ensures PutAll(PutAll(m, a), b) == PutAll(m, a + b)
  {
    if b == [] {
      assert a + b == a;
    } else {
      PutAllConcat(m, a, b[..|b| - 1]);
      assert (a + b)[..|a + b| - 1] == a + b[..|b| - 1];
    }
  }

  lemma DedupSnoc(s: seq<string>, x: string)
    ensures Dedup(s + [x]) == if x in s then Dedup(s) else Dedup(s) + [x]
  {
    SnocParts(s, x);
  }

  /** The elements of `b` that `a` does not have, in order. */
  function Unseen(b: seq<string>, a: seq<string>): (r: seq<string>)
    ensures forall x :: x in r <==> x in b && x !in a
  {
    if b == [] then []
    else
      assert b == b[..|b| - 1] + [b[|b| - 1]];
      Unseen(b[..|b| - 1], a) + (if b[|b| - 1] in a then [] else [b[|b| - 1]])
  }

  /** Appending an element `a` lacks extends both sides alike. */
  lemma DedupConcatStepNew(a: seq<string>, init: seq<string>, last: string)
    requires last !in a
    requires Dedup(a + init) == Dedup(a) + Dedup(Unseen(init, a))
    ensures Dedup(a + (init + [last])) == Dedup(a) + Dedup(Unseen(init + [last], a))
  {
    var u := Unseen(init, a);
    ConcatAssoc(a, init, [last]);
    DedupSnoc(a + init, last);
    SnocParts(init, last);
    assert Unseen(init + [last], a) == u + [last];
    DedupSnoc(u, last);
    if last !in init {
      assert last !in a + init && last !in u;
      ConcatAssoc(Dedup(a), Dedup(u), [last]);
    }
  }

  lemma {:induction false} UnseenCovered(b: seq<string>, a: seq<string>)
    requires forall x :: x in b ==> x in a
    ensures Unseen(b, a) == []
  {
    if b != [] {
      SnocSplit(b);
      UnseenCovered(b[..|b| - 1], a);
    }
  }

  /** Deduplicating a concatenation: the distinct elements of `a`, then the
      elements of `b` that `a` does not have, each once. */
  lemma {:induction false} DedupConcat(a: seq<string>, b: seq<string>)
    ensures Dedup(a + b) == Dedup(a) + Dedup(Unseen(b, a))
  {
    if b == [] {
      assert a + b == a;
    } else {
      var init, last := b[..|b| - 1], b[|b| - 1];
      DedupConcat(a, init);
      assert b == init + [last];
      if last !in a {
        DedupConcatStepNew(a, init, last);
      } else {
        assert a + b == (a + init) + [last];
        DedupSnoc(a + init, last);
        assert Unseen(b, a) == Unseen(init, a) + [];
        assert Unseen(init, a) + [] == Unseen(init, a);
      }
    }
  }

  /** The values read back from a map loaded from empty: one record per
      distinct id, in first-appearance order, each the last with its id. */
  lemma ValuesFromEmpty(xs: seq<Perfume>)
    ensures Valid(PutAll(EmptyMap, xs))
    ensures Ids(ValuesOf(PutAll(EmptyMap, xs))) == Dedup(Ids(xs))
    ensures forall k :: 0 <= k < |Dedup(Ids(xs))| ==>
      Dedup(Ids(xs))[k] in Ids(xs) && ValuesOf(PutAll(EmptyMap, xs))[k] == LastWithId(xs, Dedup(Ids(xs))[k])
  {
    var m := PutAll(EmptyMap, xs);
    PutAllKeys(xs);
    DedupMembers(Ids(xs));
    forall k | 0 <= k < |m.keys|
      ensures m.keys[k] in Ids(xs) && ValuesOf(m)[k] == LastWithId(xs, m.keys[k])
    {
      assert m.keys[k] in Dedup(Ids(xs));
      PutAllTable(xs, m.keys[k]);
    }
  }

  lemma {:induction false} LastWithIdConcat(a: seq<Perfume>, b: seq<Perfume>, id: string)
    requires id in Ids(a) || id in Ids(b)
    ensures id in Ids(a + b)
    ensures id in Ids(b) ==> LastWithId(a + b, id) == LastWithId(b, id)
    ensures id !in Ids(b) ==> LastWithId(a + b, id) == LastWithId(a, id)
  {
    IdsConcat(a, b);
    if b == [] {
      assert a + b == a;
    } else {
      var init, last := b[..|b| - 1], b[|b| - 1];
      SnocSplit(b);
      ConcatAssoc(a, init, [last]);
      SnocParts(a + init, last);
      IdsSnoc(init, last);
      if last.id != id {
        LastWithIdConcat(a, init, id);
      }
    }
  }

  /** The merged catalog's ids, in order: the catalog's distinct ids, then
      the ids only the update has, in order of first appearance; no id twice. */
  lemma MergeByIdOrder(prev: seq<Perfume>, updated: seq<Perfume>)
    ensures Ids(MergeById(prev, updated)) == Dedup(Ids(prev)) + Dedup(Unseen(Ids(updated), Ids(prev)))
    ensures NoDup(Ids(MergeById(prev, updated)))
  {
    PutAllConcat(EmptyMap, prev, updated);
    ValuesFromEmpty(prev + updated);
    IdsConcat(prev, updated);
    DedupConcat(Ids(prev), Ids(updated));
    DedupNoDup(Ids(prev + updated));
  }

  /** Every id of the catalog or of the update is in the result, bound to the
      last record the update has for it, or else to the catalog's record. */
  lemma MergeByIdRecords(prev: seq<Perfume>, updated: seq<Perfume>)
    ensures forall id :: id in Ids(MergeById(prev, updated)) <==> id in Ids(prev) || id in Ids(updated)
    ensures forall k :: 0 <= k < |MergeById(prev, updated)| ==>
      var r := MergeById(prev, updated)[k];
      if r.id in Ids(updated) then r == LastWithId(updated, r.id)
      else r.id in Ids(prev) && r == LastWithId(prev, r.id)
  {
    var all := prev + updated;
    PutAllConcat(EmptyMap, prev, updated);
    ValuesFromEmpty(all);
    IdsConcat(prev, updated);
    DedupMembers(Ids(all));
    var res := MergeById(prev, updated);
    forall k | 0 <= k < |res|
      ensures if res[k].id in Ids(updated) then res[k] == LastWithId(updated, res[k].id)
              else res[k].id in Ids(prev) && res[k] == LastWithId(prev, res[k].id)
    {
      assert Ids(res)[k] == res[k].id;
      LastWithIdConcat(prev, updated, res[k].id);
    }
  }

  lemma {:induction false} DedupOfDistinct(s: seq<string>)
    requires NoDup(s)
    ensures Dedup(s) == s
  {
    if s != [] {
      var init := s[..|s| - 1];
      assert NoDup(init) by {
        forall i, j | 0 <= i < j < |init| ensures init[i] != init[j] {
          assert init[i] == s[i] && init[j] == s[j];
        }
      }
      DedupOfDistinct(init);
      assert s[|s| - 1] !in init by {
        forall i | 0 <= i < |init| ensures init[i] != s[|s| - 1] {
          assert init[i] == s[i];
        }
      }
      SnocSplit(s);
    }
  }

  /** In a catalog of distinct ids, the record with `prev[k]`'s id is `prev[k]`. */
  lemma {:induction false} LastWithIdDistinct(prev: seq<Perfume>, k: nat)
    requires k < |prev| && NoDup(Ids(prev))
    ensures prev[k].id in Ids(prev) && LastWithId(prev, prev[k].id) == prev[k]
  {
    assert Ids(prev)[k] == prev[k].id;
    var init := prev[..|prev| - 1];
    if k < |prev| - 1 {
      assert Ids(prev)[|prev| - 1] == prev[|prev| - 1].id;
      assert NoDup(Ids(init)) by {
        forall i, j | 0 <= i < j < |init| ensures Ids(init)[i] != Ids(init)[j] {
          assert Ids(init)[i] == Ids(prev)[i] && Ids(init)[j] == Ids(prev)[j];
        }
      }
      assert init[k] == prev[k];
      LastWithIdDistinct(init, k);
    }
  }

  /** Merging only ids that a catalog of distinct ids already has leaves the
      id order exactly as it was. */
  lemma MergeExistingIds(prev: seq<Perfume>, updated: seq<Perfume>)
    requires NoDup(Ids(prev))
    requires forall x :: x in updated ==> x.id in Ids(prev)
    ensures Ids(MergeById(prev, updated)) == Ids(prev)
  {
    MergeByIdOrder(prev, updated);
    forall id | id in Ids(updated) ensures id in Ids(prev) {
      var k :| 0 <= k < |updated| && Ids(updated)[k] == id;
      assert updated[k] in updated;
    }
    UnseenCovered(Ids(updated), Ids(prev));
    DedupOfDistinct(Ids(prev));
    assert Dedup([]) == [];
    ConcatEmpty(Ids(prev));
  }

  /** What the table's edits rely on: merging records whose ids a catalog of
      distinct ids already has keeps every entry in its place and swaps in
      the updated record where there is one. */
  lemma MergeExisting(prev: seq<Perfume>, updated: seq<Perfume>)
    requires NoDup(Ids(prev))
    requires forall x :: x in updated ==> x.id in Ids(prev)
    ensures |MergeById(prev, updated)| == |prev|
    ensures forall k :: 0 <= k < |prev| ==>
      MergeById(prev, updated)[k] == if prev[k].id in Ids(updated) then LastWithId(updated, prev[k].id) else prev[k]
  {
    MergeExistingIds(prev, updated);
    MergeByIdRecords(prev, updated);
    var res := MergeById(prev, updated);
    forall k | 0 <= k < |prev|
      ensures res[k] == if prev[k].id in Ids(updated) then LastWithId(updated, prev[k].id) else prev[k]
    {
      assert Ids(res)[k] == res[k].id && Ids(prev)[k] == prev[k].id;
      LastWithIdDistinct(prev, k);
    }
  }
}
