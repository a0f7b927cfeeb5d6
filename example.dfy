/** The vocabulary table of `main` (generate_aliases.py, lines 31-81) and
    facts about what `gen` does and does not produce from it. The table is
    never expanded: each fact follows from the general lemmas. */
module Example {
  import opened Tokens
  import opened Enumeration
  import opened Generation
  import opened Rendering

  const K := Token("k", "k", [], [])

  const G := Token("g", "get", [], [])
  const T := Token("t", "tree", [], [])
  const E := Token("e", "edit", [], [])
  const D := Token("d", "describe", [], [])
  const A := Token("a", "apply -f", [], [])
  const X := Token("x", "exec -i -t", [], [])
  const Lo := Token("lo", "logs -f", [], [])
  const Rm := Token("rm", "delete", [], [])
  const Rr := Token("rr", "rollout restart", [], [])
  const Run := Token("run", "run --rm --restart=Never --image-pull-policy=IfNotPresent -i -t", [], [])

  const Po := Token("po", "pods", ["g", "d", "e", "rm"], [])
  const Dep := Token("dep", "deployment", ["g", "t", "d", "e", "rm", "rr"], [])
  const Sts := Token("sts", "statefulset", ["g", "t", "d", "e", "rm", "rr"], [])
  const Svc := Token("svc", "service", ["g", "d", "e", "rm"], [])
  const Ing := Token("ing", "ingress", ["g", "d", "e", "rm"], [])
  const Cm := Token("cm", "configmap", ["g", "d", "e", "rm"], [])
  /** Line 53 writes `'e' 'rm'` without a comma: the two literals are one
      string, so the third requirement is `erm`. */
  const Sec := Token("sec", "secret", ["g", "d", "erm"], [])
  const No := Token("no", "nodes", ["g", "d", "e"], [])
  const Ns := Token("ns", "namespaces", ["g", "d", "e", "rm"], [])

  const Owide := Token("owide", "-o=wide", ["g"], ["oyaml", "ojson"])
  const Oyaml := Token("oyaml", "-o=yaml", ["g"], ["owide", "ojson", "sl"])
  const Ojson := Token("ojson", "-o=json", ["g"], ["owide", "oyaml", "sl"])
  const All := Token("all", "--all-namespaces", ["g", "d"], ["rm", "no", "ns"])
  const Sl := Token("sl", "--show-labels", ["g"], ["oyaml", "ojson"])
  const W := Token("w", "--watch", ["g"], ["oyaml", "ojson", "owide"])

  const L := Token("l", "-l", ["g", "d", "l", "rm", "rr"], [])
  const N := Token("n", "--namespace", ["g", "t", "d", "e", "x", "l", "rm"], ["ns", "no", "all"])

  const Cmds: seq<Token> := [K]
  const Ops: seq<Token> := [G, T, E, D, A, X, Lo, Rm, Rr, Run]
  const Res: seq<Token> := [Po, Dep, Sts, Svc, Ing, Cm, Sec, No, Ns]
  const Args: seq<Token> := [Owide, Oyaml, Ojson, All, Sl, W]
  const Positional: seq<Token> := [L, N]

  const RealParts: seq<Group> := [
    Group(Cmds, false, true),
    Group(Ops, true, true),
    Group(Res, true, true),
    Group(Args, true, false),
    Group(Positional, true, true)
  ]

  /** The first sequence generated is the bare `k`, the one rendering skips. */
  lemma RealBaseComesFirst()
    ensures |Generate(RealParts)| > 0 && Generate(RealParts)[0] == [K]
  {
    assert ShortForms([K]) == {"k"};
    BaseComesFirst(RealParts, K);
  }

  /** `po` is rejected without an operation that it allows, whatever the
      table around it. */
  lemma PodsNeedAnOperation()
    ensures !Valid([K, Po]) && Valid([K, G, Po])
    ensures forall parts :: [K, Po] !in Generate(parts)
  {
    assert ShortForms([K, Po]) == {"k", "po"};
    assert !MeetsRequirement(Po, ShortForms([K, Po]));
    assert [K, Po][1] == Po;
    assert ShortForms([K, G, Po]) == {"k", "g", "po"};
    assert MeetsRequirement(Po, ShortForms([K, G, Po])) by {
      assert "g" in Po.allowWhenOneOf;
    }
    forall parts
      ensures [K, Po] !in Generate(parts)
    {
      if [K, Po] in Generate(parts) {
        GenerateValid(parts, [K, Po]);
      }
    }
  }

  /** Because of the missing comma at line 53, `k e sec` and `k rm sec` fail
      the requirement check, while `k g sec` passes. */
  lemma SecretRequirement()
    ensures !Valid([K, E, Sec]) && !Valid([K, Rm, Sec]) && Valid([K, G, Sec])
  {
    SecretRejects(E);
    SecretRejects(Rm);
    assert ShortForms([K, G, Sec]) == {"k", "g", "sec"};
    assert MeetsRequirement(Sec, ShortForms([K, G, Sec])) by {
      assert "g" in Sec.allowWhenOneOf;
    }
  }

  lemma SecretRejects(op: Token)
    requires op == E || op == Rm
    ensures !Valid([K, op, Sec])
  {
    assert ShortForms([K, op, Sec]) == {"k", op.short, "sec"};
    assert !MeetsRequirement(Sec, ShortForms([K, op, Sec]));
    assert [K, op, Sec][2] == Sec;
  }

  /** Hence `kesec` and `krmsec` are never generated, whatever the table. */
  lemma SecretNeverEditedOrDeleted()
    ensures forall parts :: [K, E, Sec] !in Generate(parts) && [K, Rm, Sec] !in Generate(parts)
  {
    SecretRequirement();
    forall parts
      ensures [K, E, Sec] !in Generate(parts) && [K, Rm, Sec] !in Generate(parts)
    {
      if [K, E, Sec] in Generate(parts) {
        GenerateValid(parts, [K, E, Sec]);
      }
      if [K, Rm, Sec] in Generate(parts) {
        GenerateValid(parts, [K, Rm, Sec]);
      }
    }
  }

  /** `owide` and `oyaml` exclude each other, so no command holds both. */
  lemma OutputFormatsExclusive(cmd: seq<Token>)
    requires Owide in cmd && Oyaml in cmd
    ensures !Valid(cmd)
  {
    var i :| 0 <= i < |cmd| && cmd[i] == Owide;
    var j :| 0 <= j < |cmd| && cmd[j] == Oyaml;
    assert "oyaml" in ShortForms(cmd);
    assert "oyaml" in cmd[i].incompatibleWith;
  }

  /** `l` lists itself among the short forms it allows, so, in any table
      shaped like the real one, `k l` is generated with no operation at all. */
  lemma LabelSelectorAlone(parts: seq<Group>)
    requires |parts| == 5
    requires !parts[0].optional && parts[0].takeExactlyOne && K in parts[0].items
    requires forall i :: 1 <= i < 4 ==> parts[i].optional
    requires parts[4].optional && parts[4].takeExactlyOne && L in parts[4].items
    ensures [K, L] in Generate(parts)
  {
    BaseKept(parts);
    LabelCandidate(parts[4]);
    LabelAfterBase();
    SkipToLast(parts, [K], [L]);
  }

  lemma LabelAfterBase()
    ensures Valid([K]) && Valid([K] + [L]) && [K] + [L] == [K, L]
  {
    LabelValidity();
    assert [K] + [L] == [K, L];
  }

  lemma BaseKept(parts: seq<Group>)
    requires |parts| > 0 && parts[0].takeExactlyOne && K in parts[0].items
    ensures [K] in Generate(parts[..1])
  {
    LabelValidity();
    assert ShortForms([K]) == {"k"};
    SingleCandidate(parts[0], K);
    FirstGroupKeeps(parts, [K]);
  }

  lemma LabelCandidate(g: Group)
    requires g.takeExactlyOne && L in g.items
    ensures [L] in Candidates(g)
  {
    assert ShortForms([L]) == {"l"};
    SingleCandidate(g, L);
  }

  lemma LabelValidity()
    ensures Valid([]) && Valid([K]) && Valid([K, L])
  {
    assert ShortForms([]) == {};
    assert ShortForms([K]) == {"k"};
    assert ShortForms([K, L]) == {"k", "l"};
    assert MeetsRequirement(L, ShortForms([K, L])) by {
      assert "l" in L.allowWhenOneOf;
    }
  }

  lemma RealLabelSelectorAlone()
    ensures [K, L] in Generate(RealParts)
  {
    LabelSelectorAlone(RealParts);
  }

  /** The key and the command of `k g po`. */
  lemma PodsKey()
    ensures AliasKey([K, G, Po]) == "kgpo"
    ensures CommandString([K, G, Po]) == "k get pods"
  {
    SingleTokenRendering(K);
    SingleTokenRendering(G);
    SingleTokenRendering(Po);
    RenderingFollowsOrder([K], [G]);
    assert [K] + [G] == [K, G];
    RenderingFollowsOrder([K, G], [Po]);
    assert [K, G] + [Po] == [K, G, Po];
  }
}
