/** The shell lookup and the alias-rendering loop of `main`
    (generate_aliases.py, lines 83-115). Output is returned instead of
    printed: the lines meant for standard output and the warnings meant for
    standard error, each in emission order. */
module Rendering {
  import opened Tokens
  import opened Generation

  datatype Result<T, E> = Ok(value: T) | Err(error: E)

  /** The `ValueError` raised for a shell name the table does not know; it
      names the shell and lists the supported ones. */
  datatype Error = UnsupportedShell(shell: string, options: seq<string>)

  datatype Output = Output(lines: seq<string>, warnings: seq<string>)

  /** `shellFormatting`, in the order of its keys (lines 83-87). */
  const ShellNames: seq<string> := ["bash", "zsh", "fish"]
  const ShellFormatting: map<string, string> :=
    map["bash" := "alias {}='{}'", "zsh" := "alias {}='{}'", "fish" := "abbr --add {} \"{}\""]

  /** The lookup at lines 90-92, done before anything is generated. */
  function LookupShell(shell: string): (r: Result<string, Error>)
    ensures r.Ok? <==> shell in ShellNames
    ensures r.Ok? ==> r.value == ShellFormatting[shell]
    ensures r.Err? ==> r.error == UnsupportedShell(shell, ShellNames)
  {
    if shell in ShellFormatting then Ok(ShellFormatting[shell])
    else Err(UnsupportedShell(shell, ShellNames))
  }

  /** The alias key: the short forms concatenated in sequence order. */
  function AliasKey(cmd: seq<Token>): (key: string)
  {
    if cmd == [] then "" else cmd[0].short + AliasKey(cmd[1..])
  }

  function LongForms(cmd: seq<Token>): (longs: seq<string>)
  {
    seq(|cmd|, i requires 0 <= i < |cmd| => cmd[i].long)
  }

  /** The strings of `xs` with `sep` between neighbours. */
  function Join(sep: string, xs: seq<string>): (joined: string)
  {
    if xs == [] then ""
    else if |xs| == 1 then xs[0]
    else xs[0] + sep + Join(sep, xs[1..])
  }

  /** The command: the long forms in sequence order, separated by single spaces. */
  function CommandString(cmd: seq<Token>): (command: string)
  {
    Join(" ", LongForms(cmd))
  }

  /** Python string formatting of a template whose only replacement fields
      are `{}`: each `{}` in turn takes the next argument. */
  function Format(template: string, args: seq<string>): (formatted: string)
  {
    if template == [] then []
    else if |template| >= 2 && template[0] == '{' && template[1] == '}' && args != [] then
      args[0] + Format(template[2..], args[1..])
    else [template[0]] + Format(template[1..], args)
  }

  /** The line printed for one sequence (line 115). */
  function AliasLine(template: string, cmd: seq<Token>): (line: string)
  {
    Format(template, [AliasKey(cmd), CommandString(cmd)])
  }

  /** The sequences that are rendered: all but the first, the bare base
      command (`out[1:]`, line 106). */
  function Emitted(out: seq<seq<Token>>): (emitted: seq<seq<Token>>)
  {
    if out == [] then [] else out[1..]
  }

  /** The key of every sequence, in order. */
  function Keys(cmds: seq<seq<Token>>): (keys: seq<string>)
    ensures |keys| == |cmds|
    ensures forall i :: 0 <= i < |cmds| ==> keys[i] == AliasKey(cmds[i])
  {
    if cmds == [] then []
    else Keys(cmds[..|cmds| - 1]) + [AliasKey(cmds[|cmds| - 1])]
  }

  /** One printed line per sequence, in order: a conflict never suppresses
      a line. */
  function AliasLines(template: string, cmds: seq<seq<Token>>): (lines: seq<string>)
    ensures |lines| == |cmds|
    ensures forall i :: 0 <= i < |cmds| ==> lines[i] == AliasLine(template, cmds[i])
  {
    if cmds == [] then []
    else AliasLines(template, cmds[..|cmds| - 1]) + [AliasLine(template, cmds[|cmds| - 1])]
  }

  /** The keys of `keys` that repeat an earlier key, one entry per repeat,
      in order. */
  function DuplicateKeys(keys: seq<string>): (dups: seq<string>)
  {
    if keys == [] then []
    else
      var n := |keys| - 1;
      DuplicateKeys(keys[..n]) + (if keys[n] in keys[..n] then [keys[n]] else [])
  }

  function ConflictMessage(key: string): (msg: string)
  {
    "Alias conflict detected: " + key
  }

  function Warnings(keys: seq<string>): (ws: seq<string>)
  {
    var d := DuplicateKeys(keys);
    seq(|d|, i requires 0 <= i < |d| => ConflictMessage(d[i]))
  }

  // ---------------------------------------------------------------------------
  // Keys and commands follow the sequence order

  lemma {:induction false} AliasKeyConcat(a: seq<Token>, b: seq<Token>)
    ensures AliasKey(a + b) == AliasKey(a) + AliasKey(b)
  {
    if a != [] {
      assert (a + b)[1..] == a[1..] + b;
      AliasKeyConcat(a[1..], b);
    } else {
      assert a + b == b;
    }
  }

  lemma {:induction false} JoinConcat(sep: string, xs: seq<string>, ys: seq<string>)
    requires xs != [] && ys != []
    ensures Join(sep, xs + ys) == Join(sep, xs) + sep + Join(sep, ys)
  {
    if |xs| > 1 {
      assert (xs + ys)[1..] == xs[1..] + ys;
      JoinConcat(sep, xs[1..], ys);
    } else {
      assert (xs + ys)[1..] == ys;
    }
  }

  /** The key of a sequence is its tokens' short forms glued in order; the
      command is their long forms, in order, one space apart. */
  lemma RenderingFollowsOrder(a: seq<Token>, b: seq<Token>)
    ensures AliasKey(a + b) == AliasKey(a) + AliasKey(b)
    ensures a != [] && b != [] ==> CommandString(a + b) == CommandString(a) + " " + CommandString(b)
  {
    AliasKeyConcat(a, b);
    assert LongForms(a + b) == LongForms(a) + LongForms(b);
    if a != [] && b != [] {
      JoinConcat(" ", LongForms(a), LongForms(b));
    }
  }

  lemma SingleTokenRendering(t: Token)
    ensures AliasKey([t]) == t.short && CommandString([t]) == t.long
  {
    assert [t][1..] == [];
  }

  // ---------------------------------------------------------------------------
  // The shell templates

  predicate NoBrace(p: string)
  {
    forall i :: 0 <= i < |p| ==> p[i] != '{'
  }

  lemma {:induction false} FormatLiteral(p: string, rest: string, args: seq<string>)
    requires NoBrace(p)
    ensures Format(p + rest, args) == p + Format(rest, args)
  {
    if p != [] {
      assert (p + rest)[0] == p[0];
      assert (p + rest)[1..] == p[1..] + rest;
      FormatLiteral(p[1..], rest, args);
    } else {
      assert p + rest == rest;
    }
  }

  lemma FormatField(rest: string, arg: string, args: seq<string>)
    ensures Format("{}" + rest, [arg] + args) == arg + Format(rest, args)
  {
    assert ("{}" + rest)[2..] == rest;
    assert ([arg] + args)[1..] == args;
  }

  lemma FormatNext(p: string, rest: string, arg: string, args: seq<string>)
    requires NoBrace(p)
    ensures Format(p + ("{}" + rest), [arg] + args) == p + (arg + Format(rest, args))
  {
    FormatLiteral(p, "{}" + rest, [arg] + args);
    FormatField(rest, arg, args);
  }

  lemma FormatTwo(p: string, q: string, r: string, key: string, command: string)
    requires NoBrace(p) && NoBrace(q) && NoBrace(r)
    ensures Format(p + ("{}" + (q + ("{}" + r))), [key, command]) == p + (key + (q + (command + r)))
  {
    var noArgs: seq<string> := [];
    assert [key, command] == [key] + [command];
    FormatNext(p, q + ("{}" + r), key, [command]);
    assert [command] == [command] + noArgs;
    FormatNext(q, r, command, noArgs);
    FormatLiteral(r, [], noArgs);
    assert r + [] == r;
  }

  /** What each supported shell prints for a key and its command. */
  lemma ShellLines(key: string, command: string)
    ensures Format(ShellFormatting["bash"], [key, command]) == "alias " + key + "='" + command + "'"
    ensures Format(ShellFormatting["zsh"], [key, command]) == "alias " + key + "='" + command + "'"
    ensures Format(ShellFormatting["fish"], [key, command]) == "abbr --add " + key + " \"" + command + "\""
  {
    assert "alias {}='{}'" == "alias " + ("{}" + ("='" + ("{}" + "'")));
    FormatTwo("alias ", "='", "'", key, command);
    assert "abbr --add {} \"{}\"" == "abbr --add " + ("{}" + (" \"" + ("{}" + "\"")));
    FormatTwo("abbr --add ", " \"", "\"", key, command);
  }

  /** The line each supported shell prints for a sequence. */
  lemma AliasLineShapes(cmd: seq<Token>)
    ensures AliasLine(ShellFormatting["bash"], cmd) == "alias " + AliasKey(cmd) + "='" + CommandString(cmd) + "'"
    ensures AliasLine(ShellFormatting["zsh"], cmd) == "alias " + AliasKey(cmd) + "='" + CommandString(cmd) + "'"
    ensures AliasLine(ShellFormatting["fish"], cmd) == "abbr --add " + AliasKey(cmd) + " \"" + CommandString(cmd) + "\""
  {
    ShellLines(AliasKey(cmd), CommandString(cmd));
  }

  // ---------------------------------------------------------------------------
  // Conflict detection

  /** A key is reported exactly when it occurs at two positions. */
  lemma {:induction false} DuplicateKeysMembers(keys: seq<string>, k: string)
    ensures k in DuplicateKeys(keys) <==> exists i, j :: 0 <= i < j < |keys| && keys[i] == k && keys[j] == k
  {
    if keys != [] {
      var n := |keys| - 1;
      var init := keys[..n];
      DuplicateKeysMembers(init, k);
      if k in DuplicateKeys(keys) {
        if k in DuplicateKeys(init) {
          var i, j :| 0 <= i < j < |init| && init[i] == k && init[j] == k;
          assert keys[i] == k && keys[j] == k;
        } else {
          assert keys[n] == k && k in init;
          var i :| 0 <= i < n && init[i] == k;
          assert keys[i] == k;
        }
      }
      if exists i, j :: 0 <= i < j < |keys| && keys[i] == k && keys[j] == k {
        var i, j :| 0 <= i < j < |keys| && keys[i] == k && keys[j] == k;
        if j < n {
          assert init[i] == k && init[j] == k;
        } else {
          assert init[i] == k;
        }
      }
    }
  }

  /** No warning at all exactly when the keys are pairwise distinct. */
  lemma NoWarningsIffDistinct(keys: seq<string>)
    ensures Warnings(keys) == [] <==> forall i, j :: 0 <= i < j < |keys| ==> keys[i] != keys[j]
  {
    if DuplicateKeys(keys) != [] {
      DuplicateKeysMembers(keys, DuplicateKeys(keys)[0]);
    }
    forall i, j | 0 <= i < j < |keys| && keys[i] == keys[j]
      ensures DuplicateKeys(keys) != []
    {
      DuplicateKeysMembers(keys, keys[i]);
    }
  }

  /** One warning per repeat: the number of keys less the number of distinct
      keys. */
  lemma {:induction false} DuplicateKeysCount(keys: seq<string>)
    ensures |DuplicateKeys(keys)| == |keys| - |ToSet(keys)|
  {
    if keys != [] {
      var n := |keys| - 1;
      var init := keys[..n];
      DuplicateKeysCount(init);
      assert keys == init + [keys[n]];
      assert ToSet(keys) == ToSet(init) + {keys[n]};
      if keys[n] in init {
        assert ToSet(keys) == ToSet(init);
      } else {
        assert keys[n] !in ToSet(init);
      }
    }
  }

  // ---------------------------------------------------------------------------
  // The loop of `main`

  /** Lines 104-115: render every emitted sequence, warning when its key was
      seen before; every sequence is rendered, conflict or not. */
  method Render(out: seq<seq<Token>>, template: string) returns (lines: seq<string>, warnings: seq<string>)
    ensures lines == AliasLines(template, Emitted(out))
    ensures warnings == Warnings(Keys(Emitted(out)))
  {
    var rest := Emitted(out);
    var seenAliases: set<string> := {};
    lines, warnings := [], [];
    for i := 0 to |rest|
      invariant seenAliases == ToSet(Keys(rest[..i]))
      invariant lines == AliasLines(template, rest[..i])
      invariant warnings == Warnings(Keys(rest[..i]))
    {
      var cmd := rest[i];
      var alias := AliasKey(cmd);
      var command := CommandString(cmd);
      ghost var before := Keys(rest[..i]);
      assert rest[..i + 1][..i] == rest[..i];
      assert Keys(rest[..i + 1]) == before + [alias];
      ToSetAppend(before, alias);
      WarningsAppend(before, alias);
      if alias in seenAliases {
        warnings := warnings + [ConflictMessage(alias)];
      }
      seenAliases := seenAliases + {alias};
      lines := lines + [Format(template, [alias, command])];
    }
    assert rest[..|rest|] == rest;
  }

  lemma ToSetAppend(xs: seq<string>, x: string)
    ensures ToSet(xs + [x]) == ToSet(xs) + {x}
  {
  }

  /** A key gets a warning exactly when an earlier key equals it. */
  lemma WarningsAppend(keys: seq<string>, k: string)
    ensures Warnings(keys + [k]) == Warnings(keys) + (if k in ToSet(keys) then [ConflictMessage(k)] else [])
  {
    assert (keys + [k])[..|keys|] == keys;
  }

  /** `main` with the shell given as a parameter: an unsupported shell is an
      error and nothing is generated; otherwise every sequence but the first
      of `gen(parts)` is rendered in that shell's syntax, with one warning per
      repeated key. */
  method GenerateAliases(parts: seq<Group>, shell: string) returns (r: Result<Output, Error>)
    ensures r.Err? <==> shell !in ShellNames
    ensures r.Err? ==> r.error == UnsupportedShell(shell, ShellNames)
    ensures r.Ok? ==> r.value.lines == AliasLines(ShellFormatting[shell], Emitted(Generate(parts)))
    ensures r.Ok? ==> r.value.warnings == Warnings(Keys(Emitted(Generate(parts))))
  {
    var format := LookupShell(shell);
    if format.Err? {
      return Err(format.error);
    }
    var out := Gen(parts);
    var lines, warnings := Render(out, format.value);
    return Ok(Output(lines, warnings));
  }
}
