/** String operations the app relies on, over `seq<char>`: JavaScript's
    `includes` (substring), `toLowerCase`, `join`, `split` and `trim`.
    Case mapping and whitespace are ASCII only. */
module Text {

  /** `needle` occurs in `hay` starting at index `i`. */
  predicate ContainsAt(hay: string, needle: string, i: int) {
    0 <= i && i + |needle| <= |hay| && hay[i..i + |needle|] == needle
  }

  /** `hay.includes(needle)`; the empty needle occurs in every string. */
  predicate Contains(hay: string, needle: string) {
    exists i :: 0 <= i <= |hay| - |needle| && ContainsAt(hay, needle, i)
  }

  /** A string contains itself and the empty string. */
  lemma ContainsSelf(s: string)
    ensures Contains(s, s) && Contains(s, "")
  {
    assert ContainsAt(s, s, 0);
    assert ContainsAt(s, "", 0);
  }

  /** An occurrence inside `b` is an occurrence inside `a + b + c`. */
  lemma ContainsInfix(a: string, b: string, c: string, needle: string)
    requires Contains(b, needle)
    ensures Contains(a + b + c, needle)
  {
    var i :| 0 <= i <= |b| - |needle| && ContainsAt(b, needle, i);
    assert (a + b + c)[|a| + i..|a| + i + |needle|] == b[i..i + |needle|];
    assert ContainsAt(a + b + c, needle, |a| + i);
  }

  /** The parts of a four-part concatenation: it starts with the first, ends
      with the last, and contains each of the middle two and the last. */
  lemma FourParts(a: string, b: string, c: string, d: string)
    ensures var e := a + b + c + d;
      && e[..|a|] == a && e[|e| - |d|..] == d
      && Contains(e, b) && Contains(e, c) && Contains(e, d)
  {
    var e := a + b + c + d;
    ContainsSelf(b);
    ContainsSelf(c);
    ContainsSelf(d);
    ContainsInfix(a, b, c + d, b);
    assert a + b + (c + d) == e;
    ContainsInfix(a + b, c, d, c);
    ContainsInfix(a + b + c, d, "", d);
    assert e + "" == e;
  }

  /** Containment is transitive. */
  lemma ContainsInTransitive(a: string, b: string, c: string)
    requires Contains(a, b) && Contains(b, c)
    ensures Contains(a, c)
  {
    var i :| 0 <= i <= |a| - |b| && ContainsAt(a, b, i);
    var j :| 0 <= j <= |b| - |c| && ContainsAt(b, c, j);
    forall m | 0 <= m < |c| ensures a[i + j + m] == c[m] {
      assert a[i..i + |b|][j + m] == b[j + m];
      assert b[j..j + |c|][m] == c[m];
    }
    assert a[i + j..i + j + |c|] == c;
    assert ContainsAt(a, c, i + j);
  }

  function LowerChar(c: char): (r: char)
    ensures 'A' <= c <= 'Z' ==> 'a' <= r <= 'z' && r as int - 'a' as int == c as int - 'A' as int
    ensures !('A' <= c <= 'Z') ==> r == c
  {
    if 'A' <= c <= 'Z' then (c as int - 'A' as int + 'a' as int) as char else c
  }

  /** `s.toLowerCase()` restricted to ASCII letters. */
  function Lower(s: string): (r: string)
    ensures |r| == |s|
    ensures forall k :: 0 <= k < |s| ==> r[k] == LowerChar(s[k])
  {
    seq(|s|, k requires 0 <= k < |s| => LowerChar(s[k]))
  }

  lemma LowerConcat(a: string, b: string)
    ensures Lower(a + b) == Lower(a) + Lower(b)
  {
  }

  /** Lower-casing both sides preserves an occurrence. */
  lemma LowerContains(hay: string, needle: string)
    requires Contains(hay, needle)
    ensures Contains(Lower(hay), Lower(needle))
  {
    var i :| 0 <= i <= |hay| - |needle| && ContainsAt(hay, needle, i);
    assert Lower(hay)[i..i + |needle|] == Lower(hay[i..i + |needle|]);
    assert ContainsAt(Lower(hay), Lower(needle), i);
  }

  /** `xs.join(sep)`; the empty list joins to the empty string. */
  function Join(xs: seq<string>, sep: string): string
  {
    if |xs| == 0 then ""
    else if |xs| == 1 then xs[0]
    else xs[0] + sep + Join(xs[1..], sep)
  }

  /** An occurrence inside one element is an occurrence inside the joined text. */
  lemma {:induction false} JoinContains(xs: seq<string>, sep: string, k: nat, needle: string)
    requires k < |xs| && Contains(xs[k], needle)
    ensures Contains(Join(xs, sep), needle)
  {
    if |xs| == 1 {
    } else if k == 0 {
      ContainsInfix("", xs[0], sep + Join(xs[1..], sep), needle);
      assert "" + xs[0] + (sep + Join(xs[1..], sep)) == Join(xs, sep);
    } else {
      JoinContains(xs[1..], sep, k - 1, needle);
      ContainsInfix(xs[0] + sep, Join(xs[1..], sep), "", needle);
      assert xs[0] + sep + Join(xs[1..], sep) + "" == Join(xs, sep);
    }
  }

  /** Lower-casing the joined text of lists joined with a lower-case separator
      is the same as joining the lower-cased elements. */
  lemma {:induction false} LowerJoin(xs: seq<string>, sep: string)
    requires Lower(sep) == sep
    ensures Lower(Join(xs, sep)) == Join(seq(|xs|, k requires 0 <= k < |xs| => Lower(xs[k])), sep)
  {
    var ls := seq(|xs|, k requires 0 <= k < |xs| => Lower(xs[k]));
    if |xs| >= 2 {
      LowerJoin(xs[1..], sep);
      assert ls[1..] == seq(|xs[1..]|, k requires 0 <= k < |xs[1..]| => Lower(xs[1..][k]));
      LowerConcat(xs[0] + sep, Join(xs[1..], sep));
      LowerConcat(xs[0], sep);
    }
  }

  /** Number of occurrences of `c` in `s`. */
  function Count(s: string, c: char): nat
  {
    if s == [] then 0 else (if s[0] == c then 1 else 0) + Count(s[1..], c)
  }

  /** `s.split(sep)` for a one-character separator: the pieces between
      separators, including empty ones; the empty string splits into one
      empty piece. */
  function Split(s: string, sep: char): (r: seq<string>)
    ensures |r| >= 1
  {
    if s == [] then [""]
    else
      var rest := Split(s[1..], sep);
      if s[0] == sep then [""] + rest else [[s[0]] + rest[0]] + rest[1..]
  }

  /** There is one more piece than there are separators. */
  lemma {:induction false} SplitCount(s: string, sep: char)
    ensures |Split(s, sep)| == Count(s, sep) + 1
  {
    if s != [] {
      SplitCount(s[1..], sep);
    }
  }

  /** No piece contains the separator. */
  lemma {:induction false} SplitPiecesAreSeparatorFree(s: string, sep: char)
    ensures forall k :: 0 <= k < |Split(s, sep)| ==> sep !in Split(s, sep)[k]
  {
    if s != [] {
      SplitPiecesAreSeparatorFree(s[1..], sep);
      var rest := Split(s[1..], sep);
      if s[0] != sep {
        assert sep !in [s[0]] + rest[0];
        forall k | 0 <= k < |Split(s, sep)| ensures sep !in Split(s, sep)[k] {
          if k > 0 { assert Split(s, sep)[k] == rest[k]; }
        }
      } else {
        forall k | 0 <= k < |Split(s, sep)| ensures sep !in Split(s, sep)[k] {
          if k > 0 { assert Split(s, sep)[k] == rest[k - 1]; }
        }
      }
    }
  }

  /** Joining the pieces with the separator gives back the input. */
  lemma {:induction false} SplitJoin(s: string, sep: char)
    ensures Join(Split(s, sep), [sep]) == s
  {
    if s != [] {
      SplitJoin(s[1..], sep);
      var rest := Split(s[1..], sep);
      if s[0] == sep {
        assert Join([""] + rest, [sep]) == "" + [sep] + Join(rest, [sep]);
        assert s == [sep] + s[1..];
      } else {
        var r := [[s[0]] + rest[0]] + rest[1..];
        if |rest| == 1 {
          assert Join(r, [sep]) == [s[0]] + rest[0];
        } else {
          assert r[1..] == rest[1..];
          assert Join(r, [sep]) == [s[0]] + rest[0] + [sep] + Join(rest[1..], [sep]);
          assert Join(rest, [sep]) == rest[0] + [sep] + Join(rest[1..], [sep]);
        }
        assert s == [s[0]] + s[1..];
      }
    }
  }

  /** The characters JavaScript's `trim` removes, restricted to ASCII. */
  predicate IsSpace(c: char) {
    c == ' ' || c == '\t' || c == '\n' || c == '\r' || c == '\U{B}' || c == '\U{C}'
  }

  /** Every character of `s` is whitespace. */
  predicate AllSpace(s: string) {
    forall k :: 0 <= k < |s| ==> IsSpace(s[k])
  }

  /** How many whitespace characters `s` starts with. */
  function LeadingSpaces(s: string): (n: nat)
    ensures n <= |s| && AllSpace(s[..n])
    ensures n == |s| || !IsSpace(s[n])
  {
    if s == [] || !IsSpace(s[0]) then 0
    else
      var n := 1 + LeadingSpaces(s[1..]);
      assert s[..n] == [s[0]] + s[1..][..n - 1];
      n
  }

  /** How many whitespace characters `s` ends with. */
  function TrailingSpaces(s: string): (n: nat)
    ensures n <= |s| && AllSpace(s[|s| - n..])
    ensures n == |s| || !IsSpace(s[|s| - n - 1])
  {
    if s == [] || !IsSpace(s[|s| - 1]) then 0
    else
      var init := s[..|s| - 1];
      var n := 1 + TrailingSpaces(init);
      assert s[|s| - n..] == init[|init| - (n - 1)..] + [s[|s| - 1]];
      n
  }

  /** Every character of an infix occurs in the whole. */
  lemma InfixChars(s: string, i: nat, j: nat)
    requires i <= j <= |s|
    ensures forall c :: c in s[i..j] ==> c in s
  {
    forall c | c in s[i..j] ensures c in s {
      var k :| 0 <= k < j - i && s[i..j][k] == c;
      assert s[i + k] == c;
    }
  }

  /** A whitespace prefix next to a whitespace suffix leaves only whitespace. */
  lemma SpaceAround(s: string, i: nat, j: nat)
    requires i <= j <= |s| && AllSpace(s[..i]) && AllSpace(s[j..])
    ensures i == j ==> AllSpace(s)
  {
    if i == j {
      forall k | 0 <= k < |s| ensures IsSpace(s[k]) {
        if k < i { assert s[k] == s[..i][k]; } else { assert s[k] == s[j..][k - j]; }
      }
    }
  }

  /** `s.trim()`: the input with its leading and trailing whitespace removed.
      The result is the infix of `s` between a whitespace prefix and a
      whitespace suffix, and neither starts nor ends with whitespace. */
  function Trim(s: string): (r: string)
    ensures r == [] || (!IsSpace(r[0]) && !IsSpace(r[|r| - 1]))
    ensures var i := LeadingSpaces(s);
      && i + |r| <= |s| && s[i..i + |r|] == r
      && AllSpace(s[..i]) && AllSpace(s[i + |r|..])
    ensures forall c :: c in r ==> c in s
    ensures r == [] <==> AllSpace(s)
  {
    var i := LeadingSpaces(s);
    var t := s[i..];
    var n := TrailingSpaces(t);
    var j := |s| - n;
    assert s[j..] == t[|t| - n..];
    assert i < j ==> s[j - 1] == t[|t| - n - 1];
    InfixChars(s, i, j);
    SpaceAround(s, i, j);
    s[i..j]
  }
}
