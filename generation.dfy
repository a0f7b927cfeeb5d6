/** The left fold `gen` (generate_aliases.py, lines 118-142): it grows a
    frontier of valid token sequences one group at a time. */
module Generation {
  import opened Tokens
  import opened Enumeration

  /** One entry `(part, optional, take_exactly_one)` of the `parts` table. */
  datatype Group = Group(items: seq<Token>, optional: bool, takeExactlyOne: bool)

  /** The size bound `gen` passes to `combinations` (lines 124-127). */
  function Arity(g: Group): (n: nat)
  {
    if g.takeExactlyOne then 1 else |g.items|
  }

  /** Every ordering of each combination, combination by combination
      (the loop at lines 131-134). */
  function Reorderings(combos: seq<seq<Token>>): (rs: seq<seq<Token>>)
  {
    if combos == [] then []
    else Reorderings(combos[..|combos| - 1]) + Permutations(combos[|combos| - 1])
  }

  /** The segments a group offers: its combinations, each expanded into all
      of its orderings when the group is optional (lines 124-134). */
  function Candidates(g: Group): (cands: seq<seq<Token>>)
  {
    var combos := CombosBelow(g.items, Arity(g) + 1, g.optional);
    if g.optional then Reorderings(combos) else combos
  }

  /** `stuff + segment` for every `stuff` of `orig` in order, kept when it is
      valid (the inner loop at lines 138-140). */
  function ExtensionsBy(orig: seq<seq<Token>>, segment: seq<Token>): (ext: seq<seq<Token>>)
  {
    if orig == [] then []
    else
      var stuff := orig[|orig| - 1];
      ExtensionsBy(orig[..|orig| - 1], segment) + (if Valid(stuff + segment) then [stuff + segment] else [])
  }

  /** `new_out`: segment by segment (the outer loop at line 137), every valid
      extension of the previous frontier. */
  function Extensions(orig: seq<seq<Token>>, segments: seq<seq<Token>>): (ext: seq<seq<Token>>)
  {
    if segments == [] then []
    else Extensions(orig, segments[..|segments| - 1]) + ExtensionsBy(orig, segments[|segments| - 1])
  }

  /** `gen(parts)`: the fold from the frontier `[()]` over the groups in order. */
  function Generate(parts: seq<Group>): (out: seq<seq<Token>>)
  {
    if parts == [] then [[]]
    else Extensions(Generate(parts[..|parts| - 1]), Candidates(parts[|parts| - 1]))
  }

  /** The concatenation of a list of segments. */
  function Flatten(segments: seq<seq<Token>>): (x: seq<Token>)
  {
    if segments == [] then []
    else Flatten(segments[..|segments| - 1]) + segments[|segments| - 1]
  }

  /** `segments` splits `x` into one candidate segment per group, and every
      group-boundary prefix of `x` (the whole of `x` included) is valid. */
  predicate Assembles(x: seq<Token>, parts: seq<Group>, segments: seq<seq<Token>>)
  {
    && |segments| == |parts|
    && (forall i :: 0 <= i < |parts| ==> segments[i] in Candidates(parts[i]))
    && Flatten(segments) == x
    && (forall i :: 0 <= i <= |parts| ==> Valid(Flatten(segments[..i])))
  }

  // ---------------------------------------------------------------------------
  // What the groups offer

  /** The segments of an optional group are exactly the reorderings of its
      compatible combinations. */
  lemma {:induction false} ReorderingsMembers(combos: seq<seq<Token>>, x: seq<Token>)
    ensures x in Reorderings(combos) <==> exists c :: c in combos && multiset(x) == multiset(c)
  {
    if combos != [] {
      var init, last := combos[..|combos| - 1], combos[|combos| - 1];
      ReorderingsMembers(init, x);
      PermutationsMembers(last, x);
      assert combos == init + [last];
      if x in Reorderings(combos) {
        if x in Permutations(last) {
          assert last in combos;
        } else {
          var c :| c in init && multiset(x) == multiset(c);
          assert c in combos;
        }
      }
      if exists c :: c in combos && multiset(x) == multiset(c) {
        var c :| c in combos && multiset(x) == multiset(c);
        if c == last {
          assert x in Permutations(last);
        } else {
          assert c in init;
        }
      }
    }
  }

  /** A group that is not optional contributes its combinations unpermuted:
      exactly the non-empty compatible order-preserving sub-sequences of its
      items, of at most `Arity(g)` tokens. */
  lemma FixedOrderCandidates(g: Group, x: seq<Token>)
    requires !g.optional
    ensures x in Candidates(g) <==> IsCombination(g.items, Arity(g), false, x)
  {
    CombinationsSpec(g.items, Arity(g), false);
  }

  /** An optional group contributes every ordering of every compatible
      combination, the empty one included. */
  lemma OptionalCandidates(g: Group, x: seq<Token>)
    requires g.optional
    ensures x in Candidates(g) <==>
              exists c :: IsCombination(g.items, Arity(g), true, c) && multiset(x) == multiset(c)
  {
    var combos := CombosBelow(g.items, Arity(g) + 1, true);
    CombinationsSpec(g.items, Arity(g), true);
    ReorderingsMembers(combos, x);
    if x in Candidates(g) {
      var c :| c in combos && multiset(x) == multiset(c);
      assert IsCombination(g.items, Arity(g), true, c);
    }
    if exists c :: IsCombination(g.items, Arity(g), true, c) && multiset(x) == multiset(c) {
      var c :| IsCombination(g.items, Arity(g), true, c) && multiset(x) == multiset(c);
      assert c in combos;
    }
  }

  /** No segment is longer than the group's size bound; in particular a
      take-exactly-one group, optional or not, adds at most one token. */
  lemma CandidateSize(g: Group, x: seq<Token>)
    requires x in Candidates(g)
    ensures |x| <= Arity(g)
    ensures !g.optional ==> |x| > 0 && IsSubseq(x, g.items)
  {
    if g.optional {
      OptionalCandidates(g, x);
      var c :| IsCombination(g.items, Arity(g), true, c) && multiset(x) == multiset(c);
      assert |x| == |multiset(x)| == |multiset(c)| == |c|;
    } else {
      FixedOrderCandidates(g, x);
    }
  }

  /** A mandatory take-exactly-one group (the base command) offers exactly
      the singletons of its items that do not exclude themselves. */
  lemma MandatorySingleCandidates(g: Group)
    requires !g.optional && g.takeExactlyOne
    ensures Candidates(g) == KeepCompatible(Singletons(g.items))
  {
    SizeOneCombos(g.items, false);
  }

  // ---------------------------------------------------------------------------
  // The fold

  lemma {:induction false} ExtensionsByMembers(orig: seq<seq<Token>>, segment: seq<Token>, x: seq<Token>)
    ensures x in ExtensionsBy(orig, segment) <==>
              exists stuff :: stuff in orig && x == stuff + segment && Valid(x)
  {
    if orig != [] {
      var init, last := orig[..|orig| - 1], orig[|orig| - 1];
      ExtensionsByMembers(init, segment, x);
      assert orig == init + [last];
      if exists stuff :: stuff in orig && x == stuff + segment && Valid(x) {
        var stuff :| stuff in orig && x == stuff + segment && Valid(x);
        if stuff != last {
          assert stuff in init;
        }
      }
    }
  }

  /** `new_out` holds `stuff + segment` exactly when `stuff` was in the old
      frontier, `segment` is a candidate and the concatenation is valid. */
  lemma {:induction false} ExtensionsMembers(orig: seq<seq<Token>>, segments: seq<seq<Token>>, x: seq<Token>)
    ensures x in Extensions(orig, segments) <==>
              exists stuff, segment :: stuff in orig && segment in segments && x == stuff + segment && Valid(x)
  {
    if segments != [] {
      var init, last := segments[..|segments| - 1], segments[|segments| - 1];
      ExtensionsMembers(orig, init, x);
      ExtensionsByMembers(orig, last, x);
      assert segments == init + [last];
      if x in Extensions(orig, segments) {
        if x in ExtensionsBy(orig, last) {
          var stuff :| stuff in orig && x == stuff + last && Valid(x);
          assert last in segments;
        } else {
          var stuff, segment :| stuff in orig && segment in init && x == stuff + segment && Valid(x);
          assert segment in segments;
        }
      }
      if exists stuff, segment :: stuff in orig && segment in segments && x == stuff + segment && Valid(x) {
        var stuff, segment :| stuff in orig && segment in segments && x == stuff + segment && Valid(x);
        if segment != last {
          assert segment in init;
        }
      }
    }
  }

  /** Every sequence `gen` returns passes `is_valid`. */
  lemma GenerateValid(parts: seq<Group>, x: seq<Token>)
    requires x in Generate(parts)
    ensures Valid(x)
  {
    if parts != [] {
      ExtensionsMembers(Generate(parts[..|parts| - 1]), Candidates(parts[|parts| - 1]), x);
    } else {
      assert x == [];
      assert ShortForms(x) == {};
    }
  }

  lemma FlattenPrefix(segments: seq<seq<Token>>, n: nat)
    requires 0 < n == |segments|
    ensures Flatten(segments) == Flatten(segments[..n - 1]) + segments[n - 1]
  {
  }

  /** The empty sequence is the one assembly of no groups. */
  lemma AssemblesEmpty()
    ensures Assembles([], [], [])
  {
    var none: seq<seq<Token>> := [];
    assert ShortForms([]) == {};
    assert none[..0] == none;
  }

  /** An assembly extended by one more valid segment. */
  lemma AssemblesExtend(stuff: seq<Token>, init: seq<Group>, earlier: seq<seq<Token>>, g: Group, segment: seq<Token>)
    requires Assembles(stuff, init, earlier)
    requires segment in Candidates(g) && Valid(stuff + segment)
    ensures Assembles(stuff + segment, init + [g], earlier + [segment])
  {
    var n := |init| + 1;
    var parts, segments := init + [g], earlier + [segment];
    assert segments[..n - 1] == earlier;
    FlattenPrefix(segments, n);
    forall i | 0 <= i < n
      ensures segments[i] in Candidates(parts[i])
    {
      if i < n - 1 {
        assert segments[i] == earlier[i] && parts[i] == init[i];
      }
    }
    forall i | 0 <= i <= n
      ensures Valid(Flatten(segments[..i]))
    {
      if i < n {
        assert segments[..i] == earlier[..i];
      } else {
        assert segments[..i] == segments;
      }
    }
  }

  /** An assembly with its last segment taken off. */
  lemma AssemblesShrink(x: seq<Token>, parts: seq<Group>, segments: seq<seq<Token>>)
    requires Assembles(x, parts, segments) && |parts| > 0
    ensures Assembles(Flatten(segments[..|parts| - 1]), parts[..|parts| - 1], segments[..|parts| - 1])
    ensures x == Flatten(segments[..|parts| - 1]) + segments[|parts| - 1]
    ensures segments[|parts| - 1] in Candidates(parts[|parts| - 1]) && Valid(x)
  {
    var n := |parts|;
    var earlier := segments[..n - 1];
    forall i | 0 <= i <= n - 1
      ensures Valid(Flatten(earlier[..i]))
    {
      assert earlier[..i] == segments[..i];
    }
    FlattenPrefix(segments, n);
    assert segments[..n] == segments;
  }

  /** The last group's pass of the fold. */
  lemma GenerateStep(parts: seq<Group>, x: seq<Token>)
    requires parts != [] && x in Generate(parts)
    ensures exists stuff, segment :: stuff in Generate(parts[..|parts| - 1]) && segment in Candidates(parts[|parts| - 1])
                                     && x == stuff + segment && Valid(x)
  {
    ExtensionsMembers(Generate(parts[..|parts| - 1]), Candidates(parts[|parts| - 1]), x);
  }

  /** One pass of the fold keeps a valid extension by a candidate. */
  lemma GroupKeeps(parts: seq<Group>, i: nat, stuff: seq<Token>, segment: seq<Token>)
    requires i < |parts| && stuff in Generate(parts[..i])
    requires segment in Candidates(parts[i]) && Valid(stuff + segment)
    ensures stuff + segment in Generate(parts[..i + 1])
  {
    var next := parts[..i + 1];
    assert next[..|next| - 1] == parts[..i];
    assert next[|next| - 1] == parts[i];
    ExtensionsMembers(Generate(parts[..i]), Candidates(parts[i]), stuff + segment);
  }

  /** A valid candidate of the first group is kept by the first pass. */
  lemma FirstGroupKeeps(parts: seq<Group>, segment: seq<Token>)
    requires |parts| > 0 && segment in Candidates(parts[0]) && Valid(segment)
    ensures segment in Generate(parts[..1])
  {
    var none: seq<Token> := [];
    assert none + segment == segment;
    assert parts[..0] == [];
    GroupKeeps(parts, 0, none, segment);
  }

  /** Optional groups can always contribute nothing, so a valid prefix
      survives any run of them. */
  lemma {:induction false} OptionalGroupsKeep(parts: seq<Group>, lo: nat, hi: nat, stuff: seq<Token>)
    requires lo <= hi <= |parts|
    requires forall i :: lo <= i < hi ==> parts[i].optional
    requires stuff in Generate(parts[..lo]) && Valid(stuff)
    ensures stuff in Generate(parts[..hi])
    decreases hi - lo
  {
    if lo < hi {
      OptionalGroupKeeps(parts, lo, stuff);
      OptionalGroupsKeep(parts, lo + 1, hi, stuff);
    }
  }

  /** An optional group contributes nothing to a valid prefix when it takes
      the empty segment. */
  lemma OptionalGroupKeeps(parts: seq<Group>, i: nat, stuff: seq<Token>)
    requires i < |parts| && parts[i].optional
    requires stuff in Generate(parts[..i]) && Valid(stuff)
    ensures stuff in Generate(parts[..i + 1])
  {
    var none: seq<Token> := [];
    OptionalStartsEmpty(parts[i]);
    assert stuff + none == stuff;
    GroupKeeps(parts, i, stuff, none);
  }

  /** A self-compatible token of a group that takes one token is one of its
      candidates, whether or not the group is optional. */
  lemma SingleCandidate(g: Group, t: Token)
    requires g.takeExactlyOne && t in g.items && ExclusionsHold([t])
    ensures [t] in Candidates(g)
  {
    SingleSubseq(t, g.items);
    if g.optional {
      assert IsCombination(g.items, Arity(g), true, [t]);
      OptionalCandidates(g, [t]);
    } else {
      FixedOrderCandidates(g, [t]);
    }
  }

  /** A valid prefix kept after the first group survives the optional groups
      in between and is extended by any candidate of the last group that
      keeps it valid. */
  lemma SkipToLast(parts: seq<Group>, stuff: seq<Token>, segment: seq<Token>)
    requires |parts| >= 2 && stuff in Generate(parts[..1]) && Valid(stuff)
    requires forall i :: 1 <= i < |parts| - 1 ==> parts[i].optional
    requires segment in Candidates(parts[|parts| - 1]) && Valid(stuff + segment)
    ensures stuff + segment in Generate(parts)
  {
    var n := |parts|;
    OptionalGroupsKeep(parts, 1, n - 1, stuff);
    GroupKeeps(parts, n - 1, stuff, segment);
    assert parts[..n] == parts;
  }

  lemma AssemblesLast(parts: seq<Group>, stuff: seq<Token>, segment: seq<Token>, earlier: seq<seq<Token>>)
    requires parts != []
    requires segment in Candidates(parts[|parts| - 1]) && Valid(stuff + segment)
    requires Assembles(stuff, parts[..|parts| - 1], earlier)
    ensures Assembles(stuff + segment, parts, earlier + [segment])
  {
    var n := |parts|;
    AssemblesExtend(stuff, parts[..n - 1], earlier, parts[n - 1], segment);
    assert parts[..n - 1] + [parts[n - 1]] == parts;
  }

  /** Every sequence of `gen(parts)` assembles from one candidate segment
      per group, valid at every group boundary. */
  lemma {:induction false} GenerateSound(parts: seq<Group>, x: seq<Token>)
    requires x in Generate(parts)
    ensures exists segments :: Assembles(x, parts, segments)
  {
    if parts == [] {
      AssemblesEmpty();
    } else {
      var n := |parts|;
      GenerateStep(parts, x);
      var stuff, segment :| stuff in Generate(parts[..n - 1]) && segment in Candidates(parts[n - 1])
                            && x == stuff + segment && Valid(x);
      GenerateSound(parts[..n - 1], stuff);
      var earlier :| Assembles(stuff, parts[..n - 1], earlier);
      AssemblesLast(parts, stuff, segment, earlier);
    }
  }

  /** Every such assembly is generated. */
  lemma {:induction false} GenerateComplete(parts: seq<Group>, x: seq<Token>, segments: seq<seq<Token>>)
    requires Assembles(x, parts, segments)
    ensures x in Generate(parts)
  {
    if parts == [] {
      assert segments == [];
    } else {
      var n := |parts|;
      var init, g := parts[..n - 1], parts[n - 1];
      AssemblesShrink(x, parts, segments);
      GenerateComplete(init, Flatten(segments[..n - 1]), segments[..n - 1]);
      ExtensionsMembers(Generate(init), Candidates(g), x);
    }
  }

  /** Generation characterised: `gen(parts)` contains `x` exactly when `x`
      splits into one candidate segment per group such that the sequence is
      valid at every group boundary, its requirements included. */
  lemma GenerateMembers(parts: seq<Group>, x: seq<Token>)
    ensures x in Generate(parts) <==> exists segments :: Assembles(x, parts, segments)
  {
    if x in Generate(parts) {
      GenerateSound(parts, x);
    }
    if exists segments :: Assembles(x, parts, segments) {
      var segments :| Assembles(x, parts, segments);
      GenerateComplete(parts, x, segments);
    }
  }

  // ---------------------------------------------------------------------------
  // The base-only sequence comes first

  lemma {:induction false} CombosBelowStartsEmpty(a: seq<Token>, k: nat)
    requires k > 0
    ensures |CombosBelow(a, k, true)| > 0 && CombosBelow(a, k, true)[0] == []
  {
    if k == 1 {
      assert Choose(a, 0) == [[]];
      assert ExclusionsHold([]);
      assert KeepCompatible([[]]) == [[]];
      assert CombosBelow(a, 1, true) == [] + KeepCompatible(Choose(a, 0));
    } else {
      CombosBelowStartsEmpty(a, k - 1);
    }
  }

  lemma {:induction false} ReorderingsStartsEmpty(combos: seq<seq<Token>>)
    requires |combos| > 0 && combos[0] == []
    ensures |Reorderings(combos)| > 0 && Reorderings(combos)[0] == []
  {
    if |combos| == 1 {
      assert Reorderings(combos) == Reorderings([]) + Permutations<Token>([]);
    } else {
      ReorderingsStartsEmpty(combos[..|combos| - 1]);
    }
  }

  /** The first segment of an optional group is the empty one. */
  lemma OptionalStartsEmpty(g: Group)
    requires g.optional
    ensures |Candidates(g)| > 0 && Candidates(g)[0] == []
  {
    CombosBelowStartsEmpty(g.items, Arity(g) + 1);
    ReorderingsStartsEmpty(CombosBelow(g.items, Arity(g) + 1, true));
  }

  lemma {:induction false} ExtensionsByStartsWithFirst(orig: seq<seq<Token>>, segment: seq<Token>)
    requires |orig| > 0 && Valid(orig[0] + segment)
    ensures |ExtensionsBy(orig, segment)| > 0 && ExtensionsBy(orig, segment)[0] == orig[0] + segment
  {
    if |orig| > 1 {
      ExtensionsByStartsWithFirst(orig[..|orig| - 1], segment);
    }
  }

  lemma {:induction false} ExtensionsStartsWithFirst(orig: seq<seq<Token>>, segments: seq<seq<Token>>)
    requires |orig| > 0 && Valid(orig[0])
    requires |segments| > 0 && segments[0] == []
    ensures |Extensions(orig, segments)| > 0 && Extensions(orig, segments)[0] == orig[0]
  {
    assert orig[0] + [] == orig[0];
    if |segments| == 1 {
      ExtensionsByStartsWithFirst(orig, []);
      assert Extensions(orig, segments) == Extensions(orig, []) + ExtensionsBy(orig, []);
    } else {
      ExtensionsStartsWithFirst(orig, segments[..|segments| - 1]);
    }
  }

  /** The base group on its own turns the frontier `[()]` into `[(base,)]`. */
  lemma BaseAlone(g: Group, base: Token)
    requires g == Group([base], false, true)
    requires Valid([base])
    ensures Extensions([[]], Candidates(g)) == [[base]]
  {
    MandatorySingleCandidates(g);
    assert Singletons([base]) == [[base]];
    assert KeepCompatible([[base]]) == [[base]];
    assert [] + [base] == [base];
    assert ExtensionsBy([[]], [base]) == [[base]];
    assert Extensions([[]], [[base]]) == Extensions([[]], []) + ExtensionsBy([[]], [base]);
  }

  /** With a mandatory single base token first and every later group
      optional, the first sequence `gen` returns is the base alone, the one
      rendering skips. */
  lemma {:induction false} BaseComesFirst(parts: seq<Group>, base: Token)
    requires |parts| > 0 && parts[0] == Group([base], false, true)
    requires Valid([base])
    requires forall i :: 1 <= i < |parts| ==> parts[i].optional
    ensures |Generate(parts)| > 0 && Generate(parts)[0] == [base]
  {
    var n := |parts|;
    if n == 1 {
      BaseAlone(parts[0], base);
      assert parts[..0] == [];
      assert Generate(parts) == Extensions(Generate([]), Candidates(parts[0]));
    } else {
      var init := parts[..n - 1];
      BaseComesFirst(init, base);
      GenerateValid(init, Generate(init)[0]);
      OptionalStartsEmpty(parts[n - 1]);
      ExtensionsStartsWithFirst(Generate(init), Candidates(parts[n - 1]));
    }
  }

  // ---------------------------------------------------------------------------
  // The imperative loops of `gen`

  /** The permutation loop at lines 131-134. */
  method Reorder(combos: seq<seq<Token>>) returns (newCombos: seq<seq<Token>>)
    ensures newCombos == Reorderings(combos)
    ensures forall x :: x in newCombos <==> exists c :: c in combos && multiset(x) == multiset(c)
  {
    newCombos := [];
    for i := 0 to |combos|
      invariant newCombos == Reorderings(combos[..i])
    {
      assert combos[..i + 1][..i] == combos[..i];
      newCombos := newCombos + Permutations(combos[i]);
    }
    assert combos[..|combos|] == combos;
    forall x
      ensures x in newCombos <==> exists c :: c in combos && multiset(x) == multiset(c)
    {
      ReorderingsMembers(combos, x);
    }
  }

  /** The nested loops at lines 136-141: segments outside, prefixes inside. */
  method Combine(orig: seq<seq<Token>>, combos: seq<seq<Token>>) returns (newOut: seq<seq<Token>>)
    ensures newOut == Extensions(orig, combos)
  {
    newOut := [];
    for s := 0 to |combos|
      invariant newOut == Extensions(orig, combos[..s])
    {
      var segment := combos[s];
      ghost var before := newOut;
      for t := 0 to |orig|
        invariant newOut == before + ExtensionsBy(orig[..t], segment)
      {
        var stuff := orig[t];
        assert orig[..t + 1][..t] == orig[..t];
        var ok := IsValid(stuff + segment);
        if ok {
          newOut := newOut + [stuff + segment];
        }
      }
      assert orig[..|orig|] == orig;
      assert combos[..s + 1][..s] == combos[..s];
    }
    assert combos[..|combos|] == combos;
  }

  /** `gen(parts)`. */
  method Gen(parts: seq<Group>) returns (out: seq<seq<Token>>)
    ensures out == Generate(parts)
    ensures forall x :: x in out ==> Valid(x)
  {
    out := [[]];
    for p := 0 to |parts|
      invariant out == Generate(parts[..p])
    {
      var g := parts[p];
      var orig := out;
      var combos;
      if g.takeExactlyOne {
        combos := Combinations(g.items, 1, g.optional);
      } else {
        combos := Combinations(g.items, |g.items|, g.optional);
      }
      if g.optional {
        combos := Reorder(combos);
      }
      out := Combine(orig, combos);
      assert parts[..p + 1][..p] == parts[..p];
    }
    assert parts[..|parts|] == parts;
    forall x | x in out
      ensures Valid(x)
    {
      GenerateValid(parts, x);
    }
  }
}
