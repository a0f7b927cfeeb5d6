/** The subset enumerator `combinations` (generate_aliases.py, lines 173-186)
    and the library enumerations it and `gen` rely on: `itertools.combinations`
    and `itertools.permutations`, each in the order the library emits. */
module Enumeration {
  import opened Tokens

  /** `[x] + s` for every `s` of `ss`, in order. */
  function Prepend<T>(x: T, ss: seq<seq<T>>): (ps: seq<seq<T>>)
  {
    seq(|ss|, i requires 0 <= i < |ss| => [x] + ss[i])
  }

  lemma PrependMembers<T>(x: T, ss: seq<seq<T>>, y: seq<T>)
    ensures y in Prepend(x, ss) <==> |y| > 0 && y[0] == x && y[1..] in ss
  {
    if y in Prepend(x, ss) {
      var i :| 0 <= i < |ss| && Prepend(x, ss)[i] == y;
      assert y[1..] == ss[i];
    }
    if |y| > 0 && y[0] == x && y[1..] in ss {
      var i :| 0 <= i < |ss| && ss[i] == y[1..];
      assert y == [x] + ss[i];
      assert Prepend(x, ss)[i] == y;
    }
  }

  /** Reference definition: `s` is an order-preserving sub-sequence of `a`. */
  predicate IsSubseq<T(==)>(s: seq<T>, a: seq<T>)
    decreases |a|
  {
    if s == [] then true
    else if a == [] then false
    else (s[0] == a[0] && IsSubseq(s[1..], a[1..])) || IsSubseq(s, a[1..])
  }

  lemma {:induction false} SubseqLength<T>(s: seq<T>, a: seq<T>)
    requires IsSubseq(s, a)
    ensures |s| <= |a|
    decreases |a|
  {
    if s != [] {
      if s[0] == a[0] && IsSubseq(s[1..], a[1..]) {
        SubseqLength(s[1..], a[1..]);
      } else {
        SubseqLength(s, a[1..]);
      }
    }
  }

  lemma {:induction false} SingleSubseq<T>(t: T, a: seq<T>)
    requires t in a
    ensures IsSubseq([t], a)
  {
    assert [t][1..] == [];
    if a[0] != t {
      SingleSubseq(t, a[1..]);
    }
  }

  /** `itertools.combinations(a, j)`: the sub-tuples of `a` of size `j`, in
      lexicographic order of their index tuples. */
  function Choose<T>(a: seq<T>, j: nat): (cs: seq<seq<T>>)
    decreases |a|, j
  {
    if j == 0 then [[]]
    else if |a| < j then []
    else Prepend(a[0], Choose(a[1..], j - 1)) + Choose(a[1..], j)
  }

  /** `Choose(a, j)` holds exactly the order-preserving sub-sequences of `a`
      of length `j`. */
  lemma {:induction false} ChooseMembers<T>(a: seq<T>, j: nat, x: seq<T>)
    ensures x in Choose(a, j) <==> |x| == j && IsSubseq(x, a)
    decreases |a|, j
  {
    if j == 0 {
    } else if |a| < j {
      if IsSubseq(x, a) {
        SubseqLength(x, a);
      }
    } else {
      var rest := a[1..];
      var left, right := Prepend(a[0], Choose(rest, j - 1)), Choose(rest, j);
      assert Choose(a, j) == left + right;
      PrependMembers(a[0], Choose(rest, j - 1), x);
      ChooseMembers(rest, j, x);
      if x != [] {
        ChooseMembers(rest, j - 1, x[1..]);
        assert IsSubseq(x, a) == ((x[0] == a[0] && IsSubseq(x[1..], rest)) || IsSubseq(x, rest));
      }
    }
  }

  /** The sub-tuples of `a` of size 1 are the singletons of its elements. */
  lemma {:induction false} ChooseOne<T>(a: seq<T>)
    ensures Choose(a, 1) == Singletons(a)
  {
    if a != [] {
      ChooseOne(a[1..]);
      assert Choose(a[1..], 0) == [[]];
      assert Prepend(a[0], [[]])[0] == [a[0]];
      assert Singletons(a) == [[a[0]]] + Singletons(a[1..]);
    }
  }

  function Singletons<T>(a: seq<T>): (ss: seq<seq<T>>)
  {
    seq(|a|, i requires 0 <= i < |a| => [a[i]])
  }

  /** The filter that keeps the sub-tuples passing the incompatibility check, in order. */
  function KeepCompatible(cs: seq<seq<Token>>): (kept: seq<seq<Token>>)
  {
    if cs == [] then []
    else (if ExclusionsHold(cs[0]) then [cs[0]] else []) + KeepCompatible(cs[1..])
  }

  /** The filter keeps exactly the members that pass the incompatibility check. */
  lemma {:induction false} KeepCompatibleMembers(cs: seq<seq<Token>>, x: seq<Token>)
    ensures x in KeepCompatible(cs) <==> x in cs && ExclusionsHold(x)
  {
    if cs != [] {
      KeepCompatibleMembers(cs[1..], x);
      assert cs == [cs[0]] + cs[1..];
    }
  }

  /** The list `l` after the loop of `combinations(a, n, include_0)` has run
      for the sizes `0 .. k - 1`: the compatible sub-tuples of each size in
      turn, size 0 skipped unless `include0`. */
  function CombosBelow(a: seq<Token>, k: nat, include0: bool): (l: seq<seq<Token>>)
  {
    if k == 0 then []
    else CombosBelow(a, k - 1, include0)
         + (if !include0 && k - 1 == 0 then [] else KeepCompatible(Choose(a, k - 1)))
  }

  /** What the enumerator keeps: exactly the order-preserving sub-sequences
      of `a` of size below `k` that pass the incompatibility check, the empty
      one only when `include0`. */
  lemma {:induction false} CombosBelowMembers(a: seq<Token>, k: nat, include0: bool, x: seq<Token>)
    ensures x in CombosBelow(a, k, include0)
            <==> IsSubseq(x, a) && |x| < k && (include0 || |x| > 0) && ExclusionsHold(x)
  {
    if k == 0 {
    } else if !include0 && k == 1 {
      assert CombosBelow(a, k, include0) == [];
    } else {
      CombosBelowMembers(a, k - 1, include0, x);
      ChooseMembers(a, k - 1, x);
      CombosBelowStep(a, k, include0, x);
    }
  }

  /** One pass of the loop adds the compatible sub-tuples of size `k - 1`. */
  lemma CombosBelowStep(a: seq<Token>, k: nat, include0: bool, x: seq<Token>)
    requires k > 0 && (include0 || k > 1)
    requires x in CombosBelow(a, k - 1, include0)
             <==> IsSubseq(x, a) && |x| < k - 1 && (include0 || |x| > 0) && ExclusionsHold(x)
    requires x in Choose(a, k - 1) <==> |x| == k - 1 && IsSubseq(x, a)
    ensures x in CombosBelow(a, k, include0)
            <==> IsSubseq(x, a) && |x| < k && (include0 || |x| > 0) && ExclusionsHold(x)
  {
    var prev := CombosBelow(a, k - 1, include0);
    var layer := KeepCompatible(Choose(a, k - 1));
    assert CombosBelow(a, k, include0) == prev + layer;
    KeepCompatibleMembers(Choose(a, k - 1), x);
    assert x in prev + layer <==> x in prev || x in layer;
  }

  /** Sizes never decrease along `l`. */
  predicate SizeOrdered<T>(l: seq<seq<T>>)
  {
    forall i, j :: 0 <= i < j < |l| ==> |l[i]| <= |l[j]|
  }

  /** Every entry of `l` is shorter than `k`. */
  predicate SizesBelow<T>(l: seq<seq<T>>, k: nat)
  {
    forall i :: 0 <= i < |l| ==> |l[i]| < k
  }

  /** The enumerator groups its results by ascending size. */
  lemma {:induction false} CombosBelowSorted(a: seq<Token>, k: nat, include0: bool)
    ensures SizesBelow(CombosBelow(a, k, include0), k)
    ensures SizeOrdered(CombosBelow(a, k, include0))
  {
    if k == 0 {
    } else if !include0 && k == 1 {
      assert CombosBelow(a, k, include0) == [];
    } else {
      var prev, layer := CombosBelow(a, k - 1, include0), KeepCompatible(Choose(a, k - 1));
      assert include0 || k - 1 != 0;
      assert CombosBelow(a, k, include0) == prev + layer;
      CombosBelowSorted(a, k - 1, include0);
      LayerSizes(a, k - 1);
      AppendSorted(prev, layer, k - 1);
    }
  }

  /** Every compatible sub-tuple of size `j` has size `j`. */
  lemma LayerSizes(a: seq<Token>, j: nat)
    ensures forall i :: 0 <= i < |KeepCompatible(Choose(a, j))| ==> |KeepCompatible(Choose(a, j))[i]| == j
  {
    var layer := KeepCompatible(Choose(a, j));
    forall i | 0 <= i < |layer|
      ensures |layer[i]| == j
    {
      assert layer[i] in layer;
      KeepCompatibleMembers(Choose(a, j), layer[i]);
      ChooseMembers(a, j, layer[i]);
    }
  }

  lemma AppendSorted<T>(prev: seq<seq<T>>, layer: seq<seq<T>>, m: nat)
    requires SizesBelow(prev, m) && SizeOrdered(prev)
    requires forall i :: 0 <= i < |layer| ==> |layer[i]| == m
    ensures SizesBelow(prev + layer, m + 1) && SizeOrdered(prev + layer)
  {
  }

  /** `combinations(a, n, include_0)`. */
  method Combinations(a: seq<Token>, n: nat, include0: bool) returns (l: seq<seq<Token>>)
    ensures l == CombosBelow(a, n + 1, include0)
    ensures forall x :: x in l <==> IsCombination(a, n, include0, x)
    ensures SizeOrdered(l)
  {
    l := [];
    for j := 0 to n + 1
      invariant l == CombosBelow(a, j, include0)
    {
      if !include0 && j == 0 {
        assert CombosBelow(a, 1, include0) == [];
        continue;
      }
      var cs := KeepCompatible(Choose(a, j));
      assert CombosBelow(a, j + 1, include0) == l + cs;
      l := l + cs;
    }
    CombinationsSpec(a, n, include0);
  }

  /** `x` is what `combinations(a, n, include0)` promises to return: an
      order-preserving sub-sequence of `a` of at most `n` tokens, not empty
      unless `include0`, that passes the incompatibility check. */
  predicate IsCombination(a: seq<Token>, n: nat, include0: bool, x: seq<Token>)
  {
    IsSubseq(x, a) && |x| <= n && (include0 || |x| > 0) && ExclusionsHold(x)
  }

  /** The enumerator's list holds exactly the combinations, by ascending size. */
  lemma CombinationsSpec(a: seq<Token>, n: nat, include0: bool)
    ensures forall x :: x in CombosBelow(a, n + 1, include0) <==> IsCombination(a, n, include0, x)
    ensures SizeOrdered(CombosBelow(a, n + 1, include0))
  {
    var k := n + 1;
    forall x
      ensures x in CombosBelow(a, k, include0) <==> IsCombination(a, n, include0, x)
    {
      CombosBelowMembers(a, k, include0, x);
    }
    CombosBelowSorted(a, k, include0);
  }

  /** With a size bound of 1 the enumerator yields `()` (only if `include0`)
      followed by the singletons `(x,)` of the elements of `a` that do not
      exclude themselves, in the order of `a`. */
  lemma SizeOneCombos(a: seq<Token>, include0: bool)
    ensures CombosBelow(a, 2, include0)
            == (if include0 then [[]] else []) + KeepCompatible(Singletons(a))
  {
    ChooseOne(a);
    assert Choose(a, 0) == [[]];
    assert ExclusionsHold([]);
    assert KeepCompatible([[]]) == [[]];
    assert CombosBelow(a, 0, include0) == [];
    assert CombosBelow(a, 1, include0) == if include0 then [[]] else [];
    assert CombosBelow(a, 2, include0) == CombosBelow(a, 1, include0) + KeepCompatible(Choose(a, 1));
  }

  /** The sequence with its element at index `i` removed. */
  function Without<T>(s: seq<T>, i: nat): (rest: seq<T>)
    requires i < |s|
  {
    s[..i] + s[i + 1..]
  }

  /** `itertools.permutations(s)`: every ordering of `s`, in lexicographic
      order of the index tuples. */
  function Permutations<T>(s: seq<T>): (ps: seq<seq<T>>)
    decreases |s|, 1, 0
  {
    if s == [] then [[]] else PermutationsFrom(s, 0)
  }

  /** The orderings of `s` whose first element is `s[k]` for some `k >= i`. */
  function PermutationsFrom<T>(s: seq<T>, i: nat): (ps: seq<seq<T>>)
    requires i <= |s|
    decreases |s|, 0, |s| - i
  {
    if i == |s| then []
    else Prepend(s[i], Permutations(Without(s, i))) + PermutationsFrom(s, i + 1)
  }

  lemma {:induction false} PermutationsFromMembers<T>(s: seq<T>, i: nat, x: seq<T>)
    requires i <= |s|
    ensures x in PermutationsFrom(s, i) <==>
              exists k :: i <= k < |s| && |x| > 0 && x[0] == s[k] && x[1..] in Permutations(Without(s, k))
    decreases |s| - i
  {
    if i < |s| {
      PrependMembers(s[i], Permutations(Without(s, i)), x);
      PermutationsFromMembers(s, i + 1, x);
    }
  }

  lemma WithoutMultiset<T>(s: seq<T>, k: nat)
    requires k < |s|
    ensures multiset(s) == multiset(Without(s, k)) + multiset{s[k]}
  {
    assert s == s[..k] + [s[k]] + s[k + 1..];
  }

  /** Every permutation of `s` has the elements of `s`. */
  lemma {:induction false} PermutationsSound<T>(s: seq<T>, x: seq<T>)
    requires x in Permutations(s)
    ensures multiset(x) == multiset(s)
    decreases |s|
  {
    if s != [] {
      PermutationsFromMembers(s, 0, x);
      var k :| 0 <= k < |s| && |x| > 0 && x[0] == s[k] && x[1..] in Permutations(Without(s, k));
      PermutationsSound(Without(s, k), x[1..]);
      WithoutMultiset(s, k);
      assert x == [x[0]] + x[1..];
    }
  }

  /** Every sequence with the elements of `s` is one of its permutations. */
  lemma {:induction false} PermutationsComplete<T>(s: seq<T>, x: seq<T>)
    requires multiset(x) == multiset(s)
    ensures x in Permutations(s)
    decreases |s|
  {
    assert |x| == |multiset(x)| == |multiset(s)| == |s|;
    if s != [] {
      assert x == [x[0]] + x[1..];
      assert multiset(x) == multiset{x[0]} + multiset(x[1..]);
      assert x[0] in multiset(s);
      var k :| 0 <= k < |s| && s[k] == x[0];
      WithoutMultiset(s, k);
      assert multiset(x[1..]) == multiset(x) - multiset{x[0]};
      assert multiset(Without(s, k)) == multiset(s) - multiset{s[k]};
      PermutationsComplete(Without(s, k), x[1..]);
      PermutationsFromMembers(s, 0, x);
    }
  }

  /** The permutations of `s` are exactly the sequences with the same
      elements, counted with multiplicity. */
  lemma PermutationsMembers<T>(s: seq<T>, x: seq<T>)
    ensures x in Permutations(s) <==> multiset(x) == multiset(s)
  {
    if x in Permutations(s) {
      PermutationsSound(s, x);
    }
    if multiset(x) == multiset(s) {
      PermutationsComplete(s, x);
    }
  }

  function Factorial(n: nat): (f: nat)
  {
    if n == 0 then 1 else n * Factorial(n - 1)
  }

  /** `s` has `|s|!` permutations (as index tuples, so repeated elements give
      repeated entries). */
  lemma {:induction false} PermutationsCount<T>(s: seq<T>)
    ensures |Permutations(s)| == Factorial(|s|)
    decreases |s|, 1, 0
  {
    if s != [] {
      PermutationsFromCount(s, 0);
    }
  }

  lemma {:induction false} PermutationsFromCount<T>(s: seq<T>, i: nat)
    requires i <= |s| && |s| > 0
    ensures |PermutationsFrom(s, i)| == (|s| - i) * Factorial(|s| - 1)
    decreases |s|, 0, |s| - i
  {
    if i < |s| {
      var rest := Without(s, i);
      assert |rest| == |s| - 1;
      PermutationsCount(rest);
      PermutationsFromCount(s, i + 1);
      var f, m := Factorial(|s| - 1), |s| - i - 1;
      assert |Prepend(s[i], Permutations(rest))| == f;
      assert (m + 1) * f == f + m * f;
    }
  }
}
