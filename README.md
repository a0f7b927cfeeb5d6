# kubectl alias generator, modelled in Dafny

`generate_aliases.py` writes shell aliases for `kubectl`. It starts from a table of vocabulary
tokens. Each token is `(short, long, allow_when_oneof, incompatible_with)`. The tokens sit in
groups: the base command `k`, operations, resources, flags, and value-taking flags. `gen` folds
over the groups. For each group it enumerates that group's segments and extends every sequence
built so far with every segment, keeping the result only while it passes the validity check.
`main` looks up the shell's template and skips the bare base command. It then prints one
alias line per sequence and warns on stderr whenever an alias key repeats.

The model has five modules:

- `Tokens` (`tokens.dfy`) holds the token datatype and the two validity checks. Each check is a
  quantified predicate. The loop of the code is a method proved equal to that predicate.
- `Enumeration` (`enumeration.dfy`) models `combinations`. It is a method with the loop of the
  code, proved equal to the function `CombosBelow`. `CombosBelow` is itself characterised
  against a reference predicate (`IsSubseq`: an order-preserving sub-sequence). The module also
  models `itertools.combinations` (`Choose`) and `itertools.permutations` (`Permutations`). Both
  are recursive functions that emit in the library's lexicographic order.
- `Generation` (`generation.dfy`) models `gen` and the segments of each group. The methods
  `Reorder`, `Combine` and `Gen` keep the nested loops of the code. Each is proved equal to a
  fold function. The lemmas characterise the fold's results by membership, and they show that
  the base-only sequence comes first.
- `Rendering` (`rendering.dfy`) covers the shell lookup, alias keys and command strings,
  `str.format` with `{}` fields, and the conflict-detecting output loop. It also has
  `GenerateAliases`, which is `main` with the shell name as a parameter. Its result holds the
  stdout lines and the stderr warnings, not printed output.
- `Example` (`example.dfy`) holds the real vocabulary table as constants. It proves facts about
  what the table does and does not produce, without expanding it.

Two behaviours of `gen` worth stating explicitly:

- **Requirements are checked at every step.** `gen` applies the whole check `is_valid`,
  requirements included, after every group (`generate_aliases.py:139`). A requirement is not
  deferred to the final sequence. `Generation.GenerateMembers` accordingly demands validity of
  every group-boundary prefix.
- **The `optional` flag alone decides permutation.** Whether a group's segments are permuted
  depends only on `optional` (`generate_aliases.py:130`), not on a positional role. The
  value-taking group is optional, so it is permuted too. Its segments have at most one token,
  though (`Generation.CandidateSize`), so the order is unaffected.

The table itself has a quirk at line 53. `['g', 'd', 'e' 'rm']` lacks a comma, so Python joins
the two literals into the single requirement `'erm'`. The model keeps that reading.
`Example.SecretNeverEditedOrDeleted` shows its effect: `k e sec` and `k rm sec` are never
generated.

## Model

| member | source | states |
|---|---|---|
| Tokens.IsValidRequirements | generate_aliases.py:149-158 | true exactly when every token with a non-empty requirement list shares a short form with the sequence's own short forms, its own included |
| Tokens.IsValidIncompatibilities | generate_aliases.py:161-170 | true exactly when no token's incompatibility list names a short form present in the sequence |
| Tokens.IsValid | generate_aliases.py:145-146 | equals the conjunction of both checks (`Valid`) |
| Tokens.ExclusionsAntitone | generate_aliases.py:161-170 | dropping tokens never turns a passing incompatibility check into a failing one |
| Tokens.ValidityIgnoresOrder | generate_aliases.py:149-170 | both checks and their conjunction depend only on which tokens occur, not on their order or repetition |
| Tokens.OwnShortFormCounts | generate_aliases.py:150-155 | a token listing its own short form among its requirements always meets them |
| Tokens.SingletonExclusions | generate_aliases.py:161-170 | a lone token passes the incompatibility check exactly when it does not exclude its own short form |
| Enumeration.ChooseMembers | generate_aliases.py:179 | the size-`j` sub-tuples are exactly the order-preserving sub-sequences of length `j` |
| Enumeration.ChooseOne | generate_aliases.py:179 | the size-1 sub-tuples are the singletons of the elements, in order |
| Enumeration.KeepCompatibleMembers | generate_aliases.py:182 | the filter keeps exactly the members that pass the incompatibility check |
| Enumeration.CombosBelowMembers | generate_aliases.py:175-184 | after sizes `0..k-1` the list holds exactly the compatible order-preserving sub-sequences shorter than `k`, the empty one only when `include_0` |
| Enumeration.CombosBelowSorted | generate_aliases.py:175-184 | the list is grouped by ascending size |
| Enumeration.Combinations | generate_aliases.py:173-186 | the loop's list equals the sizes `0..n` in turn; its members are exactly the compatible order-preserving sub-sequences of size at most `n` (non-empty unless `include_0`), in ascending size |
| Enumeration.CombinationsSpec | generate_aliases.py:173-186 | the same membership and size order, stated for the function the loop computes |
| Enumeration.SizeOneCombos | generate_aliases.py:124-125 | with size bound 1: `()` only when `include_0`, then the self-compatible singletons in order |
| Enumeration.PermutationsMembers | generate_aliases.py:133 | the orderings produced are exactly the sequences with the same multiset of tokens |
| Enumeration.PermutationsCount | generate_aliases.py:133 | a segment of `m` tokens has `m!` orderings |
| Generation.ReorderingsMembers | generate_aliases.py:130-134 | the expanded list holds exactly the reorderings of some retained combination |
| Generation.Reorder | generate_aliases.py:131-134 | the loop builds that expanded list, and its members are exactly those reorderings |
| Generation.FixedOrderCandidates | generate_aliases.py:124-127 | a non-optional group offers exactly its compatible, non-empty, order-preserving sub-sequences up to its arity, unpermuted |
| Generation.OptionalCandidates | generate_aliases.py:124-134 | an optional group offers exactly the reorderings of its compatible sub-sequences up to its arity, the empty one included |
| Generation.CandidateSize | generate_aliases.py:124-127 | a segment never exceeds the group's arity; a non-optional group's segment is non-empty and keeps declared order |
| Generation.MandatorySingleCandidates | generate_aliases.py:124-125 | a mandatory take-exactly-one group contributes exactly one self-compatible token |
| Generation.SingleCandidate | generate_aliases.py:124-134 | a self-compatible token of a group that takes one token is one of its segments, whether the group is optional or not |
| Generation.ExtensionsMembers | generate_aliases.py:136-141 | `new_out` holds `stuff + segment` exactly when `stuff` was in `out`, `segment` is a candidate and the result is valid |
| Generation.Combine | generate_aliases.py:136-141 | the nested loops, segments outer and prefixes inner, compute that list in that order |
| Generation.GenerateValid | generate_aliases.py:139 | every sequence `gen` returns passes `is_valid` |
| Generation.GenerateMembers | generate_aliases.py:118-142 | a sequence is generated exactly when it splits into one candidate per group with every group-boundary prefix valid |
| Generation.GroupKeeps | generate_aliases.py:137-140 | a valid extension of a kept prefix by a candidate of the next group is kept |
| Generation.OptionalGroupsKeep | generate_aliases.py:124-140 | a valid prefix survives any run of optional groups |
| Generation.BaseComesFirst | generate_aliases.py:118-142 | with a lone valid base token in a mandatory first group and optional groups after it, the first sequence is the bare base |
| Generation.Gen | generate_aliases.py:118-142 | the fold computes `Generate(parts)`, and all its sequences are valid |
| Rendering.LookupShell | generate_aliases.py:83-92 | succeeds exactly for bash, zsh and fish with their templates; otherwise the error names the shell and lists the options |
| Rendering.Keys | generate_aliases.py:107 | one key per sequence, in order |
| Rendering.AliasLines | generate_aliases.py:106-115 | one printed line per sequence, in order |
| Rendering.RenderingFollowsOrder | generate_aliases.py:107-108 | the key concatenates short forms in sequence order; the command joins long forms in order with single spaces |
| Rendering.SingleTokenRendering | generate_aliases.py:107-108 | a single token's key and command are its short and long forms |
| Rendering.ShellLines | generate_aliases.py:83-87 | the bash and zsh template gives `alias KEY='CMD'`; the fish template gives `abbr --add KEY "CMD"` |
| Rendering.AliasLineShapes | generate_aliases.py:106-115 | each shell's line for a sequence, in terms of its key and command |
| Rendering.DuplicateKeysMembers | generate_aliases.py:110-113 | a key is warned about exactly when it occurs at two positions |
| Rendering.NoWarningsIffDistinct | generate_aliases.py:110-113 | no warning at all exactly when the keys are pairwise distinct |
| Rendering.DuplicateKeysCount | generate_aliases.py:110-113 | the number of warnings is the number of keys minus the number of distinct keys |
| Rendering.WarningsAppend | generate_aliases.py:110-111 | a new key adds a warning exactly when an earlier key equals it |
| Rendering.Render | generate_aliases.py:104-115 | skips the first sequence; prints a line for every other one, whatever the conflicts; warns on each repeated key; the seen set tracks the keys processed (loop invariant) |
| Rendering.GenerateAliases | generate_aliases.py:89-115 | an unsupported shell is an error before generation; otherwise the lines and warnings of rendering `gen(parts)` minus its first sequence |
| Example.RealBaseComesFirst | generate_aliases.py:75-81 | the real table's first sequence is the bare `k` |
| Example.PodsNeedAnOperation | generate_aliases.py:47 | `k po` is invalid and never generated; `k g po` is valid |
| Example.SecretRequirement | generate_aliases.py:53 | `k e sec` and `k rm sec` fail the requirement check; `k g sec` passes |
| Example.SecretNeverEditedOrDeleted | generate_aliases.py:53 | `k e sec` and `k rm sec` are never generated, whatever the table |
| Example.OutputFormatsExclusive | generate_aliases.py:59-60 | a command holding `owide` and `oyaml` is invalid |
| Example.LabelSelectorAlone | generate_aliases.py:70 | `l` satisfies its own requirement, so `k l` is generated by any table shaped like the real one |
| Example.RealLabelSelectorAlone | generate_aliases.py:31-81 | `k l` is generated by the real table |
| Example.PodsKey | generate_aliases.py:107-108 | `k g po` renders as key `kgpo` and command `k get pods` |

## Left out

- Reading `sys.argv` (line 89): the shell is a parameter of `GenerateAliases`. The default `bash` for a missing argument is not modelled.
- `sys.stdout.isatty()` and the license header (lines 97-102): file I/O. The model has no header lines.
- Printing (lines 111, 115): the model returns the lines and warnings as sequences.
- The exact text of the `ValueError` (lines 91-92): the error carries the shell and the option list, not the message string.
- The Python 2 `xrange` shim (lines 23-26).
- `diff` (lines 189-190): nothing calls it.
- Rendering.Format: handles only bare `{}` fields, the only kind the templates contain. It does not model Python's error when arguments run out.
- `itertools.combinations` and `itertools.permutations` are recursive functions with the library's emission order. CPython's iterator internals are not modelled.
- The full expansion of the real table (lines 31-81) is not computed. `Example` proves facts about it from the general lemmas instead.
