/** Byte order of strings, sorted lists of strings, and `sort.Slice`. */
module Ordering {

  /** Go's `<` on strings: byte by byte, a proper prefix first. */
  predicate Less(a: string, b: string) {
    b != "" && (a == "" || a[0] < b[0] || (a[0] == b[0] && Less(a[1..], b[1..])))
  }

  lemma LessTotal(a: string, b: string)
    ensures Less(a, b) || a == b || Less(b, a)
    ensures !(Less(a, b) && Less(b, a)) && !Less(a, a)
  {
    if a != "" && b != "" && a[0] == b[0] {
      LessTotal(a[1..], b[1..]);
      if a[1..] == b[1..] {
        assert a == [a[0]] + a[1..] && b == [b[0]] + b[1..];
      }
    }
    if a != "" {
      LessTotal(a[1..], a[1..]);
    }
  }

  /** The first byte that differs decides, and without one the length. With `LessTotal` this is all. */
  lemma {:induction false} LessMeans(common: string, x: char, y: char, a: string, b: string)
    ensures Less(common, common + [x] + a)
    ensures x < y ==> Less(common + [x] + a, common + [y] + b)
  {
    if common != "" {
      LessMeans(common[1..], x, y, a, b);
      assert (common + [x] + a)[1..] == common[1..] + [x] + a && (common + [y] + b)[1..] == common[1..] + [y] + b;
    }
  }

  lemma LessTransitive(a: string, b: string, d: string)
    requires Less(a, b) && Less(b, d)
    ensures Less(a, d)
  {
    if a != "" && a[0] == b[0] == d[0] {
      LessTransitive(a[1..], b[1..], d[1..]);
    }
  }

  predicate Increasing(xs: seq<string>) { forall i, j | 0 <= i < j < |xs| :: Less(xs[i], xs[j]) }

  function Elements<T>(xs: seq<T>): set<T> { set x | x in xs }

  lemma ElementsEmpty<T>(xs: seq<T>)
    ensures Elements(xs) == {} <==> xs == []
  {
    if xs != [] {
      assert xs[0] in Elements(xs);
    }
  }

  /** Only one increasing list has a given set of elements. */
  lemma {:induction false} IncreasingUnique(xs: seq<string>, ys: seq<string>)
    requires Increasing(xs) && Increasing(ys) && Elements(xs) == Elements(ys)
    ensures xs == ys
  {
    ElementsEmpty(xs);
    ElementsEmpty(ys);
    if xs != [] {
      assert ys[0] in Elements(xs);
      LessTotal(xs[0], ys[0]);
      forall i | 0 < i < |xs|
        ensures xs[i] != ys[0] && xs[i] != xs[0]
      {
        LessTotal(xs[0], xs[i]);
        FirstIsLeast(xs, ys, i);
      }
      forall i | 0 < i < |ys| ensures ys[i] != ys[0] { LessTotal(ys[0], ys[i]); }
      assert xs[0] == ys[0];
      assert Elements(xs[1..]) == Elements(xs) - {xs[0]};
      assert Elements(ys[1..]) == Elements(ys) - {ys[0]};
      IncreasingUnique(xs[1..], ys[1..]);
      assert xs == [xs[0]] + xs[1..] && ys == [ys[0]] + ys[1..];
    }
  }

  lemma FirstIsLeast(xs: seq<string>, ys: seq<string>, i: nat)
    requires Increasing(xs) && Increasing(ys) && Elements(xs) == Elements(ys) && 0 < i < |xs| && ys != []
    ensures xs[i] != ys[0]
  {
    if xs[i] == ys[0] {
      assert xs[0] in Elements(xs);
      var j :| 0 <= j < |ys| && ys[j] == xs[0];
      LessTotal(xs[0], ys[0]);
    }
  }

  /** `less` is what `sort.Slice` needs to give a sorted result. */
  ghost predicate WeakOrder<T(!new)>(less: (T, T) -> bool) {
    && (forall x, y :: less(x, y) ==> !less(y, x))
    && (forall x, y, z :: less(x, y) ==> less(x, z) || less(z, y))
  }

  predicate Sorted<T>(xs: seq<T>, less: (T, T) -> bool) {
    forall i, j | 0 <= i < j < |xs| :: !less(xs[j], xs[i])
  }

  /** `sort.Slice`: a sorted permutation. The order of elements that compare equal is left open. */
  method SortSlice<T(!new)>(xs: seq<T>, less: (T, T) -> bool) returns (out: seq<T>)
    requires WeakOrder(less)
    ensures Sorted(out, less) && multiset(out) == multiset(xs)
  {
    out := [];
    for i := 0 to |xs|
      invariant Sorted(out, less) && multiset(out) == multiset(xs[..i])
    {
      var k := 0;
      while k < |out| && !less(xs[i], out[k])
        invariant 0 <= k <= |out|
        invariant forall j | 0 <= j < k :: !less(xs[i], out[j])
      {
        k := k + 1;
      }
      Inserted(out, k, xs[i], less);
      assert xs[..i + 1] == xs[..i] + [xs[i]];
      assert multiset(out[..k] + [xs[i]] + out[k..]) == multiset(out[..k] + out[k..]) + multiset{xs[i]};
      assert out == out[..k] + out[k..];
      out := out[..k] + [xs[i]] + out[k..];
    }
    assert xs[..|xs|] == xs;
  }

  lemma Inserted<T(!new)>(xs: seq<T>, k: nat, x: T, less: (T, T) -> bool)
    requires WeakOrder(less) && Sorted(xs, less) && k <= |xs|
    requires forall j | 0 <= j < k :: !less(x, xs[j])
    requires k < |xs| ==> less(x, xs[k])
    ensures Sorted(xs[..k] + [x] + xs[k..], less)
  {
    var ys := xs[..k] + [x] + xs[k..];
    forall i, j | 0 <= i < j < |ys|
      ensures !less(ys[j], ys[i])
    {
      if j == k {
        assert ys[i] == xs[i];
      } else if i == k {
        assert ys[j] == xs[j - 1] && ys[k] == x;
        assert less(x, xs[k]) && (k == j - 1 || !less(xs[j - 1], xs[k]));
      } else {
        var i' := if i < k then i else i - 1;
        var j' := if j < k then j else j - 1;
        assert ys[i] == xs[i'] && ys[j] == xs[j'];
      }
    }
  }

  lemma LessIsWeakOrder()
    ensures WeakOrder(Less)
  {
    forall x, y { LessTotal(x, y); }
    forall x, y, z | Less(x, y)
      ensures Less(x, z) || Less(z, y)
    {
      LessTotal(x, z);
      if Less(z, x) {
        LessTransitive(z, x, y);
      }
    }
  }

  /** A sorted list of distinct strings is increasing. */
  lemma SortedIncreasing(xs: seq<string>)
    requires Sorted(xs, Less) && forall i, j | 0 <= i < j < |xs| :: xs[i] != xs[j]
    ensures Increasing(xs)
  {
    forall i, j | 0 <= i < j < |xs|
      ensures Less(xs[i], xs[j])
    {
      LessTotal(xs[i], xs[j]);
    }
  }

  /** Rearranging a list keeps its elements, and its elements distinct. */
  lemma PermutedDistinct<T>(xs: seq<T>, ys: seq<T>)
    requires multiset(xs) == multiset(ys)
    ensures Elements(xs) == Elements(ys) && |xs| == |ys|
    ensures (forall i, j | 0 <= i < j < |ys| :: ys[i] != ys[j]) ==> forall i, j | 0 <= i < j < |xs| :: xs[i] != xs[j]
  {
    assert |xs| == |multiset(xs)| && |ys| == |multiset(ys)|;
    forall x ensures x in Elements(xs) <==> x in Elements(ys) {
      assert x in xs <==> x in multiset(xs);
      assert x in ys <==> x in multiset(ys);
    }
    if (forall i, j | 0 <= i < j < |ys| :: ys[i] != ys[j]) {
      forall i, j | 0 <= i < j < |xs|
        ensures xs[i] != xs[j]
      {
        DistinctCounts(ys, xs[i]);
        RepeatCounts(xs, i, j);
      }
    }
  }

  lemma RepeatCounts<T>(xs: seq<T>, i: nat, j: nat)
    requires i < j < |xs|
    ensures xs[i] == xs[j] ==> multiset(xs)[xs[i]] >= 2
  {
    assert xs == xs[..i] + [xs[i]] + xs[i + 1..j] + [xs[j]] + xs[j + 1..];
  }

  lemma DistinctCounts<T>(ys: seq<T>, y: T)
    requires forall i, j | 0 <= i < j < |ys| :: ys[i] != ys[j]
    ensures multiset(ys)[y] <= 1
  {
    if ys != [] {
      var init := ys[..|ys| - 1];
      assert ys == init + [ys[|ys| - 1]];
      DistinctCounts(init, y);
      assert ys[|ys| - 1] !in init;
    }
  }

  lemma LeastExists(s: set<string>) returns (m: string)
    requires s != {}
    ensures m in s && forall x | x in s :: x == m || Less(m, x)
  {
    hide Less;
    var x :| x in s;
    var rest := s - {x};
    assert forall y | y in s :: y == x || y in rest;
    if rest == {} {
      return x;
    }
    var n := LeastExists(rest);
    LessTotal(x, n);
    if Less(n, x) {
      return n;
    }
    m := x;
    forall y | y in s && y != x
      ensures Less(x, y)
    {
      if y != n {
        LessTransitive(x, n, y);
      }
    }
  }

  ghost function Least(s: set<string>): (m: string)
    requires s != {}
    ensures m in s && forall x | x in s :: x == m || Less(m, x)
  {
    assert exists m :: m in s && forall x | x in s :: x == m || Less(m, x) by { var m := LeastExists(s); }
    var m :| m in s && forall x | x in s :: x == m || Less(m, x); m
  }

  /** The increasing list of a set of strings. */
  ghost function SortedList(s: set<string>): seq<string> {
    if s == {} then [] else [Least(s)] + SortedList(s - {Least(s)})
  }

  lemma {:induction false} SortedListSorts(s: set<string>)
    ensures Elements(SortedList(s)) == s && |SortedList(s)| == |s| && Increasing(SortedList(s))
  {
    if s != {} {
      var m := Least(s);
      SortedListSorts(s - {m});
      ConsIncreasing(m, SortedList(s - {m}));
    }
  }

  lemma ConsIncreasing(m: string, rest: seq<string>)
    requires Increasing(rest) && forall x | x in Elements(rest) :: Less(m, x)
    ensures Increasing([m] + rest) && Elements([m] + rest) == {m} + Elements(rest)
  {
    forall i | 0 <= i < |rest|
      ensures Less(m, rest[i])
    {
      assert rest[i] in Elements(rest);
    }
  }
}
