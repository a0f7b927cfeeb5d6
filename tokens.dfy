/** Tokens of the alias vocabulary and the two validity checks that every
    candidate command must pass (generate_aliases.py, lines 145-170). */
module Tokens {

  /** One vocabulary entry `(alias, full, allow_when_oneof, incompatible_with)`.
      The source writes `None` for an absent list; `None` and `[]` are both
      falsy in `if requirements`, so both are the empty sequence here. */
  datatype Token = Token(short: string, long: string, allowWhenOneOf: seq<string>, incompatibleWith: seq<string>)

  /** The set of short forms present in a command, every token's own included. */
  function ShortForms(cmd: seq<Token>): (forms: set<string>)
  {
    set c | c in cmd :: c.short
  }

  function ToSet(xs: seq<string>): (elems: set<string>)
  {
    set x | x in xs
  }

  /** A token's requirement is met by a set of present short forms. */
  predicate MeetsRequirement(t: Token, present: set<string>)
  {
    |t.allowWhenOneOf| > 0 ==> exists r :: r in t.allowWhenOneOf && r in present
  }

  /** None of a token's incompatibilities is among the present short forms. */
  predicate AvoidsExclusions(t: Token, present: set<string>)
  {
    forall x :: x in t.incompatibleWith ==> x !in present
  }

  /** Specification of `is_valid_requirements`. */
  predicate RequirementsHold(cmd: seq<Token>)
  {
    forall i :: 0 <= i < |cmd| ==> MeetsRequirement(cmd[i], ShortForms(cmd))
  }

  /** Specification of `is_valid_incompatibilities`. */
  predicate ExclusionsHold(cmd: seq<Token>)
  {
    forall i :: 0 <= i < |cmd| ==> AvoidsExclusions(cmd[i], ShortForms(cmd))
  }

  /** Specification of `is_valid`. */
  predicate Valid(cmd: seq<Token>)
  {
    RequirementsHold(cmd) && ExclusionsHold(cmd)
  }

  /** `is_valid_requirements`: scans the tokens and returns false at the first
      one whose non-empty requirement list shares nothing with the short forms. */
  method IsValidRequirements(cmd: seq<Token>) returns (ok: bool)
    ensures ok <==> forall i :: 0 <= i < |cmd| ==>
                      |cmd[i].allowWhenOneOf| > 0 ==> exists r :: r in cmd[i].allowWhenOneOf && r in ShortForms(cmd)
  {
    var parts := ShortForms(cmd);
    for i := 0 to |cmd|
      invariant forall k :: 0 <= k < i ==> MeetsRequirement(cmd[k], parts)
    {
      var requirements := cmd[i].allowWhenOneOf;
      var common := parts * ToSet(requirements);
      if |requirements| > 0 && |common| == 0 {
        assert !MeetsRequirement(cmd[i], parts) by {
          forall r | r in requirements
            ensures r !in parts
          {
            assert r in ToSet(requirements) && r !in common;
          }
        }
        return false;
      }
      assert MeetsRequirement(cmd[i], parts) by {
        if |requirements| > 0 {
          assert common != {};
          var r :| r in common;
          assert r in requirements && r in parts;
        }
      }
    }
    return true;
  }

  /** `is_valid_incompatibilities`: scans the tokens and returns false at the
      first one whose incompatibility list shares a short form with the command. */
  method IsValidIncompatibilities(cmd: seq<Token>) returns (ok: bool)
    ensures ok <==> forall i :: 0 <= i < |cmd| ==>
                      forall x :: x in cmd[i].incompatibleWith ==> x !in ShortForms(cmd)
  {
    var parts := ShortForms(cmd);
    for i := 0 to |cmd|
      invariant forall k :: 0 <= k < i ==> AvoidsExclusions(cmd[k], parts)
    {
      var incompatibilities := cmd[i].incompatibleWith;
      var common := parts * ToSet(incompatibilities);
      if |incompatibilities| > 0 && |common| > 0 {
        assert !AvoidsExclusions(cmd[i], parts) by {
          var x :| x in common;
          assert x in incompatibilities && x in parts;
        }
        return false;
      }
      assert AvoidsExclusions(cmd[i], parts) by {
        forall x | x in incompatibilities
          ensures x !in parts
        {
          assert x in ToSet(incompatibilities) && x !in common;
        }
      }
    }
    return true;
  }

  /** `is_valid`: both checks, requirements first. */
  method IsValid(cmd: seq<Token>) returns (ok: bool)
    ensures ok == Valid(cmd)
  {
    ok := IsValidRequirements(cmd);
    if ok {
      ok := IsValidIncompatibilities(cmd);
    }
  }

  /** A command whose tokens all occur in a larger command has no more short
      forms than it. */
  lemma ShortFormsGrow(a: seq<Token>, b: seq<Token>)
    requires forall i :: 0 <= i < |a| ==> a[i] in b
    ensures ShortForms(a) <= ShortForms(b)
  {
    forall p | p in ShortForms(a)
      ensures p in ShortForms(b)
    {
      var c :| c in a && c.short == p;
    }
  }

  /** Dropping tokens never turns a passing incompatibility check into a
      failing one; equivalently, a command containing an incompatible
      sub-command is itself incompatible. */
  lemma ExclusionsAntitone(a: seq<Token>, b: seq<Token>)
    requires forall i :: 0 <= i < |a| ==> a[i] in b
    requires ExclusionsHold(b)
    ensures ExclusionsHold(a)
  {
    ShortFormsGrow(a, b);
    forall i | 0 <= i < |a|
      ensures AvoidsExclusions(a[i], ShortForms(a))
    {
      var j :| 0 <= j < |b| && b[j] == a[i];
      assert AvoidsExclusions(b[j], ShortForms(b));
    }
  }

  /** Both checks look only at which tokens are present, never at their order
      or multiplicity. */
  lemma ValidityIgnoresOrder(a: seq<Token>, b: seq<Token>)
    requires forall t :: t in a <==> t in b
    ensures RequirementsHold(a) == RequirementsHold(b)
    ensures ExclusionsHold(a) == ExclusionsHold(b)
    ensures Valid(a) == Valid(b)
  {
    ShortFormsGrow(a, b);
    ShortFormsGrow(b, a);
    assert ShortForms(a) == ShortForms(b);
    if RequirementsHold(a) {
      forall i | 0 <= i < |b|
        ensures MeetsRequirement(b[i], ShortForms(b))
      {
        var j :| 0 <= j < |a| && a[j] == b[i];
        assert MeetsRequirement(a[j], ShortForms(a));
      }
    }
    if RequirementsHold(b) {
      forall i | 0 <= i < |a|
        ensures MeetsRequirement(a[i], ShortForms(a))
      {
        var j :| 0 <= j < |b| && b[j] == a[i];
        assert MeetsRequirement(b[j], ShortForms(b));
      }
    }
    if ExclusionsHold(a) {
      ExclusionsAntitone(b, a);
    }
    if ExclusionsHold(b) {
      ExclusionsAntitone(a, b);
    }
  }

  /** A token that lists its own short form among its requirements satisfies
      itself, whatever else the command holds. */
  lemma OwnShortFormCounts(cmd: seq<Token>, i: nat)
    requires i < |cmd|
    requires cmd[i].short in cmd[i].allowWhenOneOf
    ensures MeetsRequirement(cmd[i], ShortForms(cmd))
  {
    assert cmd[i].short in ShortForms(cmd);
  }

  /** A single token passes the incompatibility check exactly when it does not
      exclude its own short form. */
  lemma SingletonExclusions(t: Token)
    ensures ExclusionsHold([t]) <==> t.short !in t.incompatibleWith
  {
    assert ShortForms([t]) == {t.short};
    if t.short !in t.incompatibleWith {
      assert AvoidsExclusions([t][0], ShortForms([t]));
    }
  }
}
