/**
 * The string operations the column-permission editor relies on:
 * the default order of `Array.prototype.sort` on strings, sorting,
 * `join(',')` and `String.prototype.includes`.
 */
module Text {

  /** The default `sort()` order on strings: lexicographic by character code. */
  predicate LexLe(a: string, b: string)
  {
    |a| == 0 || (|b| > 0 && (a[0] < b[0] || (a[0] == b[0] && LexLe(a[1..], b[1..]))))
  }

  lemma {:induction false} LexLeReflexive(a: string)
    ensures LexLe(a, a)
  {
    if |a| > 0 { LexLeReflexive(a[1..]); }
  }

  lemma {:induction false} LexLeTotal(a: string, b: string)
    ensures LexLe(a, b) || LexLe(b, a)
  {
    if |a| > 0 && |b| > 0 && a[0] == b[0] { LexLeTotal(a[1..], b[1..]); }
  }

  lemma {:induction false} LexLeAntisymmetric(a: string, b: string)
    requires LexLe(a, b) && LexLe(b, a)
    ensures a == b
  {
    if |a| > 0 && |b| > 0 {
      LexLeAntisymmetric(a[1..], b[1..]);
      assert a == [a[0]] + a[1..] && b == [b[0]] + b[1..];
    }
  }

  lemma {:induction false} LexLeTransitive(a: string, b: string, c: string)
    requires LexLe(a, b) && LexLe(b, c)
    ensures LexLe(a, c)
  {
    if |a| > 0 && a[0] == b[0] && b[0] == c[0] {
      LexLeTransitive(a[1..], b[1..], c[1..]);
    }
  }

  /** Every earlier element is at most every later one. */
  predicate Sorted(s: seq<string>)
  {
    forall i, j :: 0 <= i < j < |s| ==> LexLe(s[i], s[j])
  }

  /** `lo` is at most every element of `s`. */
  predicate AtMostAll(lo: string, s: seq<string>)
  {
    forall k :: 0 <= k < |s| ==> LexLe(lo, s[k])
  }

  lemma AtMostAllOfPermutation(lo: string, s: seq<string>, t: seq<string>)
    requires AtMostAll(lo, s) && multiset(t) <= multiset(s)
    ensures AtMostAll(lo, t)
  {
    forall k | 0 <= k < |t| ensures LexLe(lo, t[k]) {
      assert t[k] in multiset(t);
      assert t[k] in multiset(s);
      var i :| 0 <= i < |s| && s[i] == t[k];
    }
  }

  lemma SortedCons(x: string, s: seq<string>)
    requires Sorted(s) && AtMostAll(x, s)
    ensures Sorted([x] + s)
  {
  }

  /** Inserts `x` into the sorted `s` before the first element it does not exceed. */
  function Insert(x: string, s: seq<string>): (r: seq<string>)
    requires Sorted(s)
    ensures Sorted(r)
    ensures multiset(r) == multiset(s) + multiset{x}
  {
    if |s| == 0 then [x]
    else if LexLe(x, s[0]) then
      assert AtMostAll(x, s) by {
        forall k | 0 <= k < |s| ensures LexLe(x, s[k]) {
          if k > 0 { LexLeTransitive(x, s[0], s[k]); }
        }
      }
      SortedCons(x, s);
      [x] + s
    else
      var rest := Insert(x, s[1..]);
      assert AtMostAll(s[0], rest) by {
        LexLeTotal(x, s[0]);
        assert AtMostAll(s[0], s[1..] + [x]);
        AtMostAllOfPermutation(s[0], s[1..] + [x], rest);
      }
      SortedCons(s[0], rest);
      assert s == [s[0]] + s[1..];
      [s[0]] + rest
  }

  /** The array `xs` after `xs.sort()`: an insertion sort. */
  function Sort(xs: seq<string>): (r: seq<string>)
    ensures Sorted(r)
    ensures multiset(r) == multiset(xs)
    ensures |r| == |xs|
  {
    if |xs| == 0 then []
    else
      assert xs == [xs[0]] + xs[1..];
      Insert(xs[0], Sort(xs[1..]))
  }

  /** The head of a sorted list is at most each of its elements. */
  lemma SortedHeadLeast(a: seq<string>, x: string)
    requires Sorted(a) && x in multiset(a)
    ensures LexLe(a[0], x)
  {
    var i :| 0 <= i < |a| && a[i] == x;
    if i == 0 { LexLeReflexive(x); }
  }

  lemma MultisetTailsEqual(a: seq<string>, b: seq<string>)
    requires |a| > 0 && |b| > 0 && a[0] == b[0] && multiset(a) == multiset(b)
    ensures multiset(a[1..]) == multiset(b[1..])
  {
    assert a == [a[0]] + a[1..] && b == [b[0]] + b[1..];
    assert multiset(a) == multiset{a[0]} + multiset(a[1..]);
    assert multiset(b) == multiset{b[0]} + multiset(b[1..]);
    forall x ensures multiset(a[1..])[x] == multiset(b[1..])[x] {
      assert multiset(a)[x] == multiset(b)[x];
    }
  }

  /** Two sorted sequences holding the same elements are equal: sorting has one answer. */
  lemma {:induction false} SortedUnique(a: seq<string>, b: seq<string>)
    requires Sorted(a) && Sorted(b)
    requires multiset(a) == multiset(b)
    ensures a == b
  {
    if |a| > 0 {
      assert a[0] in multiset(a) && b[0] in multiset(b);
      SortedHeadLeast(b, a[0]);
      SortedHeadLeast(a, b[0]);
      LexLeAntisymmetric(a[0], b[0]);
      MultisetTailsEqual(a, b);
      SortedUnique(a[1..], b[1..]);
      assert a == [a[0]] + a[1..] && b == [b[0]] + b[1..];
    } else {
      assert |multiset(b)| == 0;
    }
  }

  /** Sorting depends only on which elements occur, how often. */
  lemma SortDeterminedByElements(xs: seq<string>, ys: seq<string>)
    ensures Sort(xs) == Sort(ys) <==> multiset(xs) == multiset(ys)
  {
    if multiset(xs) == multiset(ys) { SortedUnique(Sort(xs), Sort(ys)); }
  }

  const Comma: char := ','

  /** `xs.join(',')`. */
  function Join(xs: seq<string>): string
  {
    if |xs| == 0 then ""
    else if |xs| == 1 then xs[0]
    else xs[0] + [Comma] + Join(xs[1..])
  }

  /**
   * A joined list starts with its first key, followed by a comma when more
   * keys follow, and is empty only for `[]` and `[""]`.
   */
  lemma JoinShape(xs: seq<string>)
    ensures |xs| > 0 ==> |Join(xs)| >= |xs[0]| && Join(xs)[..|xs[0]|] == xs[0]
    ensures |xs| > 1 ==> |Join(xs)| > |xs[0]| && Join(xs)[|xs[0]|] == Comma
    ensures |xs| == 1 ==> |Join(xs)| == |xs[0]|
    ensures |Join(xs)| == 0 <==> |xs| == 0 || (|xs| == 1 && xs[0] == "")
  {
  }

  /** A key that `join(',')` cannot blur: non-empty and free of commas. */
  predicate PlainKey(k: string)
  {
    k != "" && Comma !in k
  }

  predicate PlainKeys(xs: seq<string>)
  {
    forall i :: 0 <= i < |xs| ==> PlainKey(xs[i])
  }

  /** On plain keys the first key of a joined list ends at the first comma, or at the end. */
  lemma JoinFirstKey(a: seq<string>)
    requires PlainKeys(a) && |a| > 0
    ensures forall k :: 0 <= k < |a[0]| ==> Join(a)[k] != Comma
    ensures |Join(a)| == |a[0]| || Join(a)[|a[0]|] == Comma
  {
  }

  /** On plain keys only the empty list joins to the empty string. */
  lemma JoinEmptyIff(a: seq<string>)
    requires PlainKeys(a)
    ensures |Join(a)| == 0 <==> |a| == 0
  {
  }

  /** On plain keys `join(',')` loses nothing: different lists give different strings. */
  lemma {:induction false} JoinInjective(a: seq<string>, b: seq<string>)
    requires PlainKeys(a) && PlainKeys(b)
    requires Join(a) == Join(b)
    ensures a == b
  {
    JoinEmptyIff(a);
    JoinEmptyIff(b);
    if |a| > 0 && |b| > 0 {
      var s := Join(a);
      JoinFirstKey(a);
      JoinFirstKey(b);
      JoinShape(a);
      JoinShape(b);
      assert |a[0]| == |b[0]|;
      assert a[0] == s[..|a[0]|] == b[0];
      if |a| == 1 {
        assert |b| == 1;
        assert a == [a[0]] && b == [b[0]];
      } else {
        assert |b| > 1;
        assert Join(a[1..]) == s[|a[0]| + 1..];
        assert Join(b[1..]) == s[|b[0]| + 1..];
        JoinInjective(a[1..], b[1..]);
        assert a == [a[0]] + a[1..] && b == [b[0]] + b[1..];
      }
    }
  }

  /** The comma-joined sorted lists agree exactly when the lists hold the same plain keys. */
  lemma SortedJoinEqualIff(xs: seq<string>, ys: seq<string>)
    requires PlainKeys(xs) && PlainKeys(ys)
    ensures Join(Sort(xs)) == Join(Sort(ys)) <==> multiset(xs) == multiset(ys)
  {
    SortDeterminedByElements(xs, ys);
    if Join(Sort(xs)) == Join(Sort(ys)) {
      PlainKeysOfPermutation(xs, Sort(xs));
      PlainKeysOfPermutation(ys, Sort(ys));
      JoinInjective(Sort(xs), Sort(ys));
    }
  }

  lemma PlainKeysOfPermutation(xs: seq<string>, ys: seq<string>)
    requires PlainKeys(xs) && multiset(ys) == multiset(xs)
    ensures PlainKeys(ys)
  {
    forall k | 0 <= k < |ys| ensures PlainKey(ys[k]) {
      assert ys[k] in multiset(xs);
      var i :| 0 <= i < |xs| && xs[i] == ys[k];
    }
  }

  /** The length `join(',')` gives a non-empty list, plus one: each key with its separator. */
  function Measure(xs: seq<string>): nat
  {
    if |xs| == 0 then 0 else |xs[0]| + 1 + Measure(xs[1..])
  }

  lemma {:induction false} JoinLength(xs: seq<string>)
    ensures |xs| > 0 ==> |Join(xs)| + 1 == Measure(xs)
  {
    if |xs| > 1 {
      JoinLength(xs[1..]);
    }
  }

  lemma {:induction false} MeasureConcat(a: seq<string>, b: seq<string>)
    ensures Measure(a + b) == Measure(a) + Measure(b)
  {
    if |a| == 0 {
      assert a + b == b;
    } else {
      MeasureConcat(a[1..], b);
      assert (a + b)[0] == a[0] && (a + b)[1..] == a[1..] + b;
    }
  }

  lemma MeasureRemove(c: seq<string>, i: nat)
    requires i < |c|
    ensures Measure(c) == Measure(c[..i] + c[i + 1..]) + |c[i]| + 1
    ensures multiset(c) == multiset(c[..i] + c[i + 1..]) + multiset{c[i]}
  {
    assert c == c[..i] + [c[i]] + c[i + 1..];
    MeasureConcat(c[..i] + [c[i]], c[i + 1..]);
    MeasureConcat(c[..i], [c[i]]);
    MeasureConcat(c[..i], c[i + 1..]);
  }

  lemma SubsetOfTail(c: seq<string>, m: seq<string>, taken: multiset<string>)
    requires |m| > 0 && multiset(c) + taken <= multiset(m)
    requires taken == multiset{m[0]} || (taken == multiset{} && m[0] !in multiset(c))
    ensures multiset(c) <= multiset(m[1..])
  {
    assert m == [m[0]] + m[1..];
    assert multiset(m) == multiset{m[0]} + multiset(m[1..]);
    forall y ensures multiset(c)[y] <= multiset(m[1..])[y] {
      assert (multiset(c) + taken)[y] <= multiset(m)[y];
    }
  }

  /**
   * Taking some of the keys of `m` (counted with repeats) never lengthens the
   * measure, and keeps it equal only when every key was taken.
   */
  lemma {:induction false} MeasureOfSubset(c: seq<string>, m: seq<string>)
    requires multiset(c) <= multiset(m)
    ensures Measure(c) <= Measure(m)
    ensures Measure(c) < Measure(m) || multiset(c) == multiset(m)
    decreases |m|
  {
    if |m| > 0 {
      var x := m[0];
      assert m == [x] + m[1..];
      assert multiset(m) == multiset{x} + multiset(m[1..]);
      if x in multiset(c) {
        var i :| 0 <= i < |c| && c[i] == x;
        var rest := c[..i] + c[i + 1..];
        MeasureRemove(c, i);
        SubsetOfTail(rest, m, multiset{x});
        MeasureOfSubset(rest, m[1..]);
      } else {
        SubsetOfTail(c, m, multiset{});
        MeasureOfSubset(c, m[1..]);
      }
    } else {
      assert |multiset(c)| == 0;
    }
  }

  /**
   * Among lists drawn from the keys of `m`, the sorted joined strings agree
   * with those of `m` exactly when all of `m` was drawn, or when `m` is the
   * single empty key and nothing was drawn: no condition on the keys.
   */
  lemma SubsetSortedJoinEqualIff(m: seq<string>, c: seq<string>)
    requires multiset(c) <= multiset(m)
    ensures Join(Sort(m)) == Join(Sort(c)) <==> multiset(c) == multiset(m) || (c == [] && m == [""])
  {
    SortDeterminedByElements(m, c);
    var sm, sc := Sort(m), Sort(c);
    if Join(sm) == Join(sc) && multiset(c) != multiset(m) {
      MeasureOfSubset(sc, sm);
      JoinLength(sc);
      JoinLength(sm);
      JoinShape(sm);
      assert |sc| == 0;
      assert |c| == 0;
      assert |sm| == 1 && sm[0] == "";
      assert m[0] in multiset(sm);
      assert m == [""];
    }
    if c == [] && m == [""] {
      assert sm == [""];
    }
  }

  /** No key occurs twice. */
  predicate Distinct(xs: seq<string>)
  {
    forall i, j :: 0 <= i < j < |xs| ==> xs[i] != xs[j]
  }

  lemma {:induction false} DistinctCounts(xs: seq<string>, x: string)
    requires Distinct(xs)
    ensures multiset(xs)[x] == if x in xs then 1 else 0
  {
    if |xs| > 0 {
      DistinctCounts(xs[1..], x);
      assert xs == [xs[0]] + xs[1..];
      assert xs[0] !in xs[1..];
    }
  }

  /** For lists without repeats, equal elements means equal sets. */
  lemma DistinctSameSet(xs: seq<string>, ys: seq<string>)
    requires Distinct(xs) && Distinct(ys)
    ensures multiset(xs) == multiset(ys) <==> forall x :: x in xs <==> x in ys
  {
    if multiset(xs) == multiset(ys) {
      forall x ensures x in xs <==> x in ys {
        assert x in xs <==> x in multiset(xs);
        assert x in ys <==> x in multiset(ys);
      }
    }
    if forall x :: x in xs <==> x in ys {
      forall x ensures multiset(xs)[x] == multiset(ys)[x] {
        DistinctCounts(xs, x);
        DistinctCounts(ys, x);
      }
    }
  }

  /** `sub` occurs in `s` starting at position `i`. */
  predicate OccursAt(s: string, sub: string, i: int)
  {
    0 <= i && i + |sub| <= |s| && s[i..i + |sub|] == sub
  }

  /** `s.includes(sub)`: `sub` occurs in `s` as a contiguous piece. */
  function Includes(s: string, sub: string): (b: bool)
    ensures b <==> exists i :: OccursAt(s, sub, i)
    decreases |s|
  {
    if |sub| > |s| then false
    else if s[..|sub|] == sub then
      assert OccursAt(s, sub, 0);
      true
    else
      var b := Includes(s[1..], sub);
      assert b ==> exists i :: OccursAt(s, sub, i) by {
        if b {
          var i :| OccursAt(s[1..], sub, i);
          assert OccursAt(s, sub, i + 1);
        }
      }
      assert (exists i :: OccursAt(s, sub, i)) ==> b by {
        if exists i :: OccursAt(s, sub, i) {
          var i :| OccursAt(s, sub, i);
          assert i > 0;
          assert OccursAt(s[1..], sub, i - 1);
        }
      }
      b
  }
}
