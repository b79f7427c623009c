/** Generic list transforms shared by the service and the components:
    JavaScript's `filter`, `find`, `slice(0, n)` and the `includes`-based
    add-or-remove toggle. */
module Lists {

  datatype Option<+T> = None | Some(value: T)

  /** No element occurs twice. */
  predicate NoDup<T(==)>(s: seq<T>) {
    forall i, j :: 0 <= i < j < |s| ==> s[i] != s[j]
  }

  /** `s.filter(p)`: the elements of `s` that satisfy `p`, in their original order. */
  function Filter<T(!new)>(s: seq<T>, p: T -> bool): (r: seq<T>)
    ensures |r| <= |s|
    ensures forall x :: x in r <==> x in s && p(x)
  {
    if s == [] then [] else (if p(s[0]) then [s[0]] else []) + Filter(s[1..], p)
  }

  lemma {:induction false} FilterConcat<T(!new)>(a: seq<T>, b: seq<T>, p: T -> bool)
    ensures Filter(a + b, p) == Filter(a, p) + Filter(b, p)
  {
    if a == [] {
      assert a + b == b;
    } else {
      assert (a + b)[1..] == a[1..] + b;
      FilterConcat(a[1..], b, p);
    }
  }

  /** Two predicates that agree on every element filter alike. */
  lemma {:induction false} FilterCongruent<T(!new)>(s: seq<T>, p: T -> bool, q: T -> bool)
    requires forall x :: x in s ==> p(x) == q(x)
    ensures Filter(s, p) == Filter(s, q)
  {
    if s != [] {
      FilterCongruent(s[1..], p, q);
    }
  }

  /** The positions of `s` from `from` on whose element satisfies `p`, in
      increasing order. */
  function KeptFrom<T>(s: seq<T>, p: T -> bool, from: nat): (idx: seq<nat>)
    requires from <= |s|
    ensures forall i :: 0 <= i < |idx| ==> from <= idx[i] < |s|
    ensures forall i, j :: 0 <= i < j < |idx| ==> idx[i] < idx[j]
    ensures forall k :: from <= k < |s| ==> (k in idx <==> p(s[k]))
    decreases |s| - from
  {
    if from == |s| then [] else (if p(s[from]) then [from] else []) + KeptFrom(s, p, from + 1)
  }

  /** The positions of `s` whose element satisfies `p`, in increasing order. */
  function KeptIndices<T>(s: seq<T>, p: T -> bool): (idx: seq<nat>)
    ensures forall i :: 0 <= i < |idx| ==> idx[i] < |s|
    ensures forall i, j :: 0 <= i < j < |idx| ==> idx[i] < idx[j]
    ensures forall k :: 0 <= k < |s| ==> (k in idx <==> p(s[k]))
  {
    KeptFrom(s, p, 0)
  }

  lemma {:induction false} FilterPicksFrom<T(!new)>(s: seq<T>, p: T -> bool, from: nat)
    requires from <= |s|
    ensures |Filter(s[from..], p)| == |KeptFrom(s, p, from)|
    ensures forall i :: 0 <= i < |Filter(s[from..], p)| ==> Filter(s[from..], p)[i] == s[KeptFrom(s, p, from)[i]]
    decreases |s| - from
  {
    if from < |s| {
      var t := s[from..];
      assert t[0] == s[from] && t[1..] == s[from + 1..];
      FilterPicksFrom(s, p, from + 1);
      var rest, later := Filter(s[from + 1..], p), KeptFrom(s, p, from + 1);
      if p(s[from]) {
        assert Filter(t, p) == [s[from]] + rest;
        assert KeptFrom(s, p, from) == [from] + later;
        forall i | 1 <= i < |Filter(t, p)|
          ensures Filter(t, p)[i] == s[KeptFrom(s, p, from)[i]]
        {
          assert Filter(t, p)[i] == rest[i - 1];
          assert KeptFrom(s, p, from)[i] == later[i - 1];
        }
      } else {
        assert Filter(t, p) == rest;
        assert KeptFrom(s, p, from) == later;
      }
    }
  }

  /** `Filter` keeps order and multiplicity: its result is `s` read at the
      kept positions, so every element that passes stays, every element that
      fails is dropped, and the survivors keep their original order. */
  lemma {:induction false} FilterPicks<T(!new)>(s: seq<T>, p: T -> bool)
    ensures |Filter(s, p)| == |KeptIndices(s, p)|
    ensures forall i :: 0 <= i < |Filter(s, p)| ==> Filter(s, p)[i] == s[KeptIndices(s, p)[i]]
  {
    assert s[0..] == s;
    FilterPicksFrom(s, p, 0);
  }

  /** Filtering keeps everything when every element passes. */
  lemma {:induction false} FilterKeepsAll<T(!new)>(s: seq<T>, p: T -> bool)
    requires forall x :: x in s ==> p(x)
    ensures Filter(s, p) == s
  {
    if s != [] {
      FilterKeepsAll(s[1..], p);
    }
  }

  lemma NoDupCons<T>(x: T, s: seq<T>)
    requires x !in s && NoDup(s)
    ensures NoDup([x] + s)
  {
    forall i, j | 0 <= i < j < |[x] + s|
      ensures ([x] + s)[i] != ([x] + s)[j]
    {
      if i == 0 {
        assert ([x] + s)[j] == s[j - 1];
      } else {
        assert ([x] + s)[i] == s[i - 1] && ([x] + s)[j] == s[j - 1];
      }
    }
  }

  lemma ConcatAssoc<T>(a: seq<T>, b: seq<T>, c: seq<T>)
    ensures a + (b + c) == (a + b) + c
  {
  }

  lemma ConcatEmpty<T>(s: seq<T>)
    ensures s + [] == s
  {
  }

  lemma SnocParts<T>(s: seq<T>, x: T)
    ensures (s + [x])[..|s|] == s && (s + [x])[|s|] == x
    ensures s + [x] != [] && |s + [x]| - 1 == |s|
  {
  }

  lemma SnocSplit<T>(s: seq<T>)
    requires s != []
    ensures s == s[..|s| - 1] + [s[|s| - 1]]
  {
  }

  lemma NoDupSnoc<T>(s: seq<T>, x: T)
    requires x !in s && NoDup(s)
    ensures NoDup(s + [x])
  {
    forall i, j | 0 <= i < j < |s + [x]|
      ensures (s + [x])[i] != (s + [x])[j]
    {
      assert (s + [x])[i] == s[i];
    }
  }

  /** Filtering a duplicate-free list yields a duplicate-free list. */
  lemma {:induction false} FilterNoDup<T(!new)>(s: seq<T>, p: T -> bool)
    requires NoDup(s)
    ensures NoDup(Filter(s, p))
  {
    if s != [] {
      assert NoDup(s[1..]) by {
        forall i, j | 0 <= i < j < |s[1..]| ensures s[1..][i] != s[1..][j] {
          assert s[1..][i] == s[i + 1] && s[1..][j] == s[j + 1];
        }
      }
      assert s[0] !in s[1..] by {
        forall j | 0 <= j < |s[1..]| ensures s[1..][j] != s[0] {
          assert s[1..][j] == s[j + 1];
        }
      }
      FilterNoDup(s[1..], p);
      if p(s[0]) {
        NoDupCons(s[0], Filter(s[1..], p));
      } else {
        assert [] + Filter(s[1..], p) == Filter(s[1..], p);
      }
    }
  }

  /** `s.filter(y => y !== x)`: every occurrence of `x` removed. */
  function Remove<T(==,!new)>(s: seq<T>, x: T): (r: seq<T>)
    ensures r == Filter(s, y => y != x)
    ensures x !in r
    ensures forall y :: y != x ==> (y in r <==> y in s)
    ensures NoDup(s) ==> NoDup(r)
  {
    var keep := y => y != x;
    assert NoDup(s) ==> NoDup(Filter(s, keep)) by {
      if NoDup(s) { FilterNoDup(s, keep); }
    }
    Filter(s, keep)
  }

  /** Removal keeps the order and multiplicity of the other elements: the
      result is `s` read at the positions not holding `x`, in increasing order. */
  lemma RemoveKeepsOrder<T(!new)>(s: seq<T>, x: T)
    ensures var idx := KeptIndices(s, y => y != x);
      |Remove(s, x)| == |idx| && forall k :: 0 <= k < |idx| ==> Remove(s, x)[k] == s[idx[k]]
  {
    FilterPicks(s, y => y != x);
  }

  /** Removing an absent element changes nothing. */
  lemma RemoveAbsent<T(!new)>(s: seq<T>, x: T)
    requires x !in s
    ensures Remove(s, x) == s
  {
    FilterKeepsAll(s, y => y != x);
  }

  /** `s.includes(x) ? s.filter(y => y !== x) : [...s, x]`: flips the membership of `x`. */
  function Toggle<T(==,!new)>(s: seq<T>, x: T): (r: seq<T>)
    ensures x !in s ==> r == s + [x]
    ensures x in s ==> r == Remove(s, x)
    ensures x in r <==> x !in s
    ensures forall y :: y != x ==> (y in r <==> y in s)
    ensures NoDup(s) ==> NoDup(r)
  {
    if x in s then Remove(s, x)
    else
      assert NoDup(s) ==> NoDup(s + [x]) by {
        if NoDup(s) { NoDupSnoc(s, x); }
      }
      s + [x]
  }

  /** Toggling an absent element on and off again restores the list exactly. */
  lemma ToggleTwiceFromAbsent<T(!new)>(s: seq<T>, x: T)
    requires x !in s
    ensures Toggle(Toggle(s, x), x) == s
  {
    assert Toggle(s, x) == s + [x];
    FilterConcat(s, [x], y => y != x);
    FilterKeepsAll(s, y => y != x);
  }

  /** `s.slice(0, n)`. */
  function Take<T>(s: seq<T>, n: nat): (r: seq<T>)
    ensures |r| <= n && |r| <= |s|
    ensures |r| == n || r == s
    ensures forall k :: 0 <= k < |r| ==> r[k] == s[k]
  {
    if n <= |s| then s[..n] else s
  }

  /** `s.find(p)`: the first element satisfying `p`, if any. */
  function Find<T(!new)>(s: seq<T>, p: T -> bool): (r: Option<T>)
    ensures r.None? <==> forall x :: x in s ==> !p(x)
    ensures r.Some? ==> r.value in s && p(r.value)
    ensures r.Some? ==> exists k :: 0 <= k < |s| && s[k] == r.value && forall j :: 0 <= j < k ==> !p(s[j])
  {
    if s == [] then None else if p(s[0]) then Some(s[0]) else Find(s[1..], p)
  }
}
