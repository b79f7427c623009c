/** The ranking step of the recommendation engine: scored candidates sorted
    by descending score with a stable sort, as `Array.prototype.sort` is
    required to be since the 10th edition of ECMA-262 (section 22.1.3.27).
    The reference is a functional insertion sort; the array method sorts in
    place and is proved equal to it. Sorting looks only at the score, so the
    scored item's type is a parameter. */
module Ranking {
  import opened Lists

  datatype Scored<T> = Scored(item: T, score: int)

  /** Non-increasing by score. */
  predicate SortedDesc<T>(s: seq<Scored<T>>) {
    forall i, j :: 0 <= i < j < |s| ==> s[i].score >= s[j].score
  }

  /** Every element of `s` scores at least `v`. */
  predicate AllAtLeast<T>(s: seq<Scored<T>>, v: int) {
    forall k :: 0 <= k < |s| ==> s[k].score >= v
  }

  /** The elements of `s` with score `v`, in order. */
  function WithScore<T>(s: seq<Scored<T>>, v: int): seq<Scored<T>> {
    if s == [] then [] else (if s[0].score == v then [s[0]] else []) + WithScore(s[1..], v)
  }

  lemma {:induction false} WithScoreConcat<T>(a: seq<Scored<T>>, b: seq<Scored<T>>, v: int)
    ensures WithScore(a + b, v) == WithScore(a, v) + WithScore(b, v)
  {
    if a == [] {
      assert a + b == b;
    } else {
      assert (a + b)[1..] == a[1..] + b;
      WithScoreConcat(a[1..], b, v);
      ConcatAssoc(if a[0].score == v then [a[0]] else [], WithScore(a[1..], v), WithScore(b, v));
    }
  }

  /** Places `x` right after the last element of `t` whose score is at
      least `x.score`, scanning from the right. */
  function Insert<T>(x: Scored<T>, t: seq<Scored<T>>): (r: seq<Scored<T>>)
    ensures |r| == |t| + 1
    ensures multiset(r) == multiset(t) + multiset{x}
    decreases |t|
  {
    if t == [] then [x]
    else if t[|t| - 1].score >= x.score then t + [x]
    else
      var init := t[..|t| - 1];
      SnocSplit(t);
      Insert(x, init) + [t[|t| - 1]]
  }

  /** Stable descending insertion sort: element `i` is inserted into the
      sorted prefix of the first `i` elements. */
  function SortDesc<T>(s: seq<Scored<T>>): (r: seq<Scored<T>>)
    ensures |r| == |s|
    ensures multiset(r) == multiset(s)
  {
    if s == [] then []
    else
      SnocSplit(s);
      Insert(s[|s| - 1], SortDesc(s[..|s| - 1]))
  }

  /** A lower bound on every score survives insertion of an element above it. */
  lemma {:induction false} InsertAllAtLeast<T>(x: Scored<T>, t: seq<Scored<T>>, v: int)
    requires AllAtLeast(t, v) && x.score >= v
    ensures AllAtLeast(Insert(x, t), v)
    decreases |t|
  {
    if t != [] && t[|t| - 1].score < x.score {
      var init := t[..|t| - 1];
      assert AllAtLeast(init, v) by {
        forall k | 0 <= k < |init| ensures init[k].score >= v { assert init[k] == t[k]; }
      }
      InsertAllAtLeast(x, init, v);
    }
  }

  lemma SnocSorted<T>(r: seq<Scored<T>>, last: Scored<T>)
    requires SortedDesc(r) && AllAtLeast(r, last.score)
    ensures SortedDesc(r + [last])
  {
    forall i, j | 0 <= i < j < |r + [last]| ensures (r + [last])[i].score >= (r + [last])[j].score {
      assert (r + [last])[i] == r[i];
    }
  }

  lemma {:induction false} InsertSorted<T>(x: Scored<T>, t: seq<Scored<T>>)
    requires SortedDesc(t)
    ensures SortedDesc(Insert(x, t))
    decreases |t|
  {
    if t == [] {
    } else if t[|t| - 1].score >= x.score {
      SnocSorted(t, x);
    } else {
      var init, last := t[..|t| - 1], t[|t| - 1];
      assert SortedDesc(init) && AllAtLeast(init, last.score) by {
        forall k | 0 <= k < |init| ensures init[k] == t[k] {}
      }
      InsertSorted(x, init);
      InsertAllAtLeast(x, init, last.score);
      SnocSorted(Insert(x, init), last);
    }
  }

  /** The sort orders by non-increasing score. */
  lemma {:induction false} SortDescSorted<T>(s: seq<Scored<T>>)
    ensures SortedDesc(SortDesc(s))
  {
    if s != [] {
      SortDescSorted(s[..|s| - 1]);
      InsertSorted(s[|s| - 1], SortDesc(s[..|s| - 1]));
    }
  }

  lemma {:induction false} InsertWithScore<T>(x: Scored<T>, t: seq<Scored<T>>, v: int)
    ensures WithScore(Insert(x, t), v) == WithScore(t, v) + WithScore([x], v)
    decreases |t|
  {
    if t == [] {
      assert [x] == [] + [x];
    } else if t[|t| - 1].score >= x.score {
      WithScoreConcat(t, [x], v);
    } else {
      var init, last := t[..|t| - 1], t[|t| - 1];
      InsertWithScore(x, init, v);
      WithScoreConcat(Insert(x, init), [last], v);
      SnocSplit(t);
      WithScoreConcat(init, [last], v);
      var a, sx, sl := WithScore(init, v), WithScore([x], v), WithScore([last], v);
      // x and last have different scores, so at most one of them has score
      // `v`, and the two single-element filters commute.
      assert WithScore([x], v) == (if x.score == v then [x] else []) + WithScore([], v);
      assert WithScore([last], v) == (if last.score == v then [last] else []) + WithScore([], v);
      if sx == [] {
        ConcatEmpty(a + sl);
        ConcatEmpty(a);
      } else {
        assert sl == [];
        ConcatEmpty(a + sx);
        ConcatEmpty(a);
      }
    }
  }

  /** Stability and permutation in one: for every score, the elements with
      that score appear in the sorted list exactly as in the input. */
  lemma {:induction false} SortDescStable<T>(s: seq<Scored<T>>, v: int)
    ensures WithScore(SortDesc(s), v) == WithScore(s, v)
  {
    if s != [] {
      var init, last := s[..|s| - 1], s[|s| - 1];
      SortDescStable(init, v);
      InsertWithScore(last, SortDesc(init), v);
      SnocSplit(s);
      WithScoreConcat(init, [last], v);
    }
  }

  /** Inserting `x` at a position whose left neighbour scores at least as
      much and whose right part scores strictly less gives `Insert`. */
  lemma {:induction false} InsertAt<T>(x: Scored<T>, t: seq<Scored<T>>, j: nat)
    requires j <= |t|
    requires forall k :: j <= k < |t| ==> t[k].score < x.score
    requires j == 0 || t[j - 1].score >= x.score
    ensures Insert(x, t) == t[..j] + ([x] + t[j..])
    decreases |t|
  {
    if j < |t| {
      var init, last := t[..|t| - 1], t[|t| - 1];
      InsertAt(x, init, j);
      assert init[..j] == t[..j];
      assert init[j..] + [last] == t[j..];
      ConcatAssoc(t[..j], [x] + init[j..], [last]);
      ConcatAssoc([x], init[j..], [last]);
    } else if t == [] {
      assert t[..j] == [] && t[j..] == [];
    } else {
      assert t[..j] == t && t[j..] == [];
      ConcatEmpty([x]);
    }
  }

  /** The array contents one insertion pass leaves behind: `t` with `x`
      placed at `j`. */
  lemma ShiftedIsInsert<T>(s: seq<Scored<T>>, t: seq<Scored<T>>, x: Scored<T>, j: nat)
    requires |s| == |t| + 1 && j <= |t|
    requires forall k :: 0 <= k < j ==> s[k] == t[k]
    requires s[j] == x
    requires forall k :: j < k < |s| ==> s[k] == t[k - 1]
    requires forall k :: j <= k < |t| ==> t[k].score < x.score
    requires j == 0 || t[j - 1].score >= x.score
    ensures s == Insert(x, t)
  {
    InsertAt(x, t, j);
    var r := t[..j] + ([x] + t[j..]);
    forall k | 0 <= k < |s| ensures s[k] == r[k] {
      if k < j { assert r[k] == t[k]; } else if k > j { assert r[k] == t[k - 1]; }
    }
  }

  /** The shifting loop of one insertion pass: moves the elements left of
      `i` that score strictly less than `x` one place to the right, and
      returns the slot this frees. */
  method MakeRoom<T>(a: array<Scored<T>>, i: nat, x: Scored<T>) returns (j: nat)
    requires i < a.Length
    modifies a
    ensures j <= i
    ensures forall k :: 0 <= k < j ==> a[k] == old(a[k])
    ensures forall k :: j < k <= i ==> a[k] == old(a[k - 1])
    ensures forall k :: j <= k < i ==> old(a[k]).score < x.score
    ensures j == 0 || old(a[j - 1]).score >= x.score
    ensures forall k :: i < k < a.Length ==> a[k] == old(a[k])
  {
    j := i;
    while j > 0 && a[j - 1].score < x.score
      invariant 0 <= j <= i
      invariant forall k :: 0 <= k < j ==> a[k] == old(a[k])
      invariant forall k :: j < k <= i ==> a[k] == old(a[k - 1])
      invariant forall k :: j <= k < i ==> old(a[k]).score < x.score
      invariant forall k :: i < k < a.Length ==> a[k] == old(a[k])
    {
      a[j] := a[j - 1];
      j := j - 1;
    }
  }

  /** One pass of insertion: the element at `i` is moved left past the
      elements of the sorted prefix that score strictly less. */
  method InsertLast<T>(a: array<Scored<T>>, i: nat)
    requires i < a.Length
    modifies a
    ensures a[..i + 1] == Insert(old(a[i]), old(a[..i]))
    ensures forall k :: i < k < a.Length ==> a[k] == old(a[k])
  {
    var x := a[i];
    ghost var t := a[..i];
    var j := MakeRoom(a, i, x);
    a[j] := x;
    ShiftedIsInsert(a[..i + 1], t, x, j);
  }

  lemma SortDescPrefix<T>(s: seq<Scored<T>>, i: nat)
    requires i < |s|
    ensures SortDesc(s[..i + 1]) == Insert(s[i], SortDesc(s[..i]))
  {
    assert s[..i + 1][..i] == s[..i];
  }

  /** Sorts `a` in place by stable insertion. */
  method SortByScore<T>(a: array<Scored<T>>)
    modifies a
    ensures a[..] == SortDesc(old(a[..]))
  {
    ghost var input := a[..];
    var i := 0;
    while i < a.Length
      invariant 0 <= i <= a.Length
      invariant a[..i] == SortDesc(input[..i])
      invariant forall k :: i <= k < a.Length ==> a[k] == input[k]
    {
      assert a[i] == input[i];
      InsertLast(a, i);
      SortDescPrefix(input, i);
      i := i + 1;
    }
    assert input[..a.Length] == input;
  }
}
