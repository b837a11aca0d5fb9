/**
 * Assembling the one-shot prompt from the command line (mgpt.py, lines
 * 163-190): piped standard input and the arguments are joined, then every
 * known option text is deleted wherever it occurs and the result stripped.
 */
module CommandLine {
  import opened Wrappers
  import opened Text

  /** The option texts removed from the prompt, in the order they are removed (lines 174 and 184). */
  const Flags: seq<string> := ["--chat", "-c", "--help", "-h", "--openmanus", "-o", "--verbose", "-v"]

  /** What the program does with its arguments before reading any prompt (lines 164-171). */
  datatype Mode = Help | InteractiveMode | Delegation(verbose: bool) | SingleQuery

  /** Whether any of the given option texts is an argument (program name included). */
  predicate AnyArg(argv: seq<string>, a: string, b: string) {
    a in argv || b in argv
  }

  /**
   * Help wins over chat, chat over delegation; verbosity only matters when
   * delegating, since the one-shot query ignores it.
   */
  function SelectMode(argv: seq<string>): (m: Mode)
    ensures m == Help <==> AnyArg(argv, "--help", "-h")
    ensures m == InteractiveMode <==> !AnyArg(argv, "--help", "-h") && AnyArg(argv, "--chat", "-c")
    ensures m.Delegation? ==> m.verbose == AnyArg(argv, "--verbose", "-v")
    ensures m == SingleQuery <==>
      !AnyArg(argv, "--help", "-h") && !AnyArg(argv, "--chat", "-c") && !AnyArg(argv, "--openmanus", "-o")
  {
    if AnyArg(argv, "--help", "-h") then Help
    else if AnyArg(argv, "--chat", "-c") then InteractiveMode
    else if AnyArg(argv, "--openmanus", "-o") then Delegation(AnyArg(argv, "--verbose", "-v"))
    else SingleQuery
  }

  /**
   * Lines 172-173 and 182-183: the stripped piped input (nothing when the
   * input is a terminal, given here as `None`), then a space and the
   * arguments after the program name joined by spaces, when there are any.
   */
  function CombinedText(piped: Option<string>, argv: seq<string>): string {
    var stdinText := if piped.Some? then Strip(piped.value) else "";
    if |argv| > 1 then stdinText + " " + Join(" ", argv[1..]) else stdinText
  }

  /** No option text is empty, as `str.replace` with these patterns needs here. */
  predicate NonEmptyAll(flags: seq<string>) {
    flags == [] || (flags[0] != [] && NonEmptyAll(flags[1..]))
  }

  /** Deletes each option text in turn, stripping after each deletion. */
  function RemoveFlags(text: string, flags: seq<string>): string
    requires NonEmptyAll(flags)
    decreases |flags|
  {
    if flags == [] then text else RemoveFlags(Strip(Replace(text, flags[0], "")), flags[1..])
  }

  /** Every option text of the program is non-empty. */
  lemma FlagsNonEmpty()
    ensures NonEmptyAll(Flags)
  {
    var tail := Flags[1..];
    assert tail[1..] == Flags[2..] && Flags[2..][1..] == Flags[3..] && Flags[3..][1..] == Flags[4..];
    assert Flags[4..][1..] == Flags[5..] && Flags[5..][1..] == Flags[6..] && Flags[6..][1..] == Flags[7..];
    assert Flags[7..][1..] == [];
  }

  /** The combined text with the program's option texts deleted (lines 174-175). */
  function Cleaned(text: string): string {
    FlagsNonEmpty();
    RemoveFlags(text, Flags)
  }

  /** The loop of lines 174-175 (and 184-185) over a list of option texts. */
  method RemoveEach(text: string, flags: seq<string>) returns (r: string)
    requires NonEmptyAll(flags)
    ensures r == RemoveFlags(text, flags)
  {
    r := text;
    assert flags[0..] == flags;
    for i := 0 to |flags|
      invariant NonEmptyAll(flags[i..])
      invariant RemoveFlags(r, flags[i..]) == RemoveFlags(text, flags)
    {
      assert flags[i..][1..] == flags[i + 1..];
      r := Strip(Replace(r, flags[i], ""));
    }
    assert flags[|flags|..] == [];
  }

  /**
   * Lines 172-178 (and 182-188): the combined text with every option text
   * deleted, then the emptiness test, where `None` stands for "No prompt
   * provided." and exit status 1.
   */
  method AssemblePrompt(piped: Option<string>, argv: seq<string>) returns (prompt: Option<string>)
    ensures var text := Cleaned(CombinedText(piped, argv));
      prompt == if text == [] then None else Some(text)
  {
    FlagsNonEmpty();
    var text := RemoveEach(CombinedText(piped, argv), Flags);
    if text == [] {
      prompt := None;
    } else {
      prompt := Some(text);
    }
  }

  /** After at least one deletion the prompt never begins or ends with whitespace. */
  lemma {:induction false} RemoveFlagsTrimmed(text: string, flags: seq<string>)
    requires NonEmptyAll(flags)
    requires flags != []
    ensures Trimmed(RemoveFlags(text, flags))
    decreases |flags|
  {
    if |flags| > 1 {
      RemoveFlagsTrimmed(Strip(Replace(text, flags[0], "")), flags[1..]);
    }
  }

  /** A text containing none of the option texts is only stripped. */
  lemma {:induction false} RemoveFlagsAbsent(text: string, flags: seq<string>)
    requires NonEmptyAll(flags)
    requires forall f :: f in flags ==> !Contains(text, f)
    ensures RemoveFlags(text, flags) == if flags == [] then text else Strip(text)
    decreases |flags|
  {
    if flags != [] {
      var t := Strip(text);
      ReplaceAbsent(text, flags[0], "");
      if |flags| > 1 {
        forall f | f in flags[1..] ensures !Contains(t, f) {
          assert f in flags;
          StripContains(text, f);
        }
        RemoveFlagsAbsent(t, flags[1..]);
        StripTrimmed(t);
      }
    }
  }

  /**
   * A deletion only shortens the text, so the prompt is never longer than
   * the combined input.
   */
  lemma {:induction false} RemoveFlagsShortens(text: string, flags: seq<string>)
    requires NonEmptyAll(flags)
    ensures |RemoveFlags(text, flags)| <= |text|
    decreases |flags|
  {
    if flags != [] {
      var t := Strip(Replace(text, flags[0], ""));
      ReplaceDeletes(text, flags[0]);
      RemoveFlagsShortens(t, flags[1..]);
    }
  }

  /**
   * With only the program name, the prompt is the stripped piped input
   * whenever that input holds none of the option texts.
   */
  lemma OnlyPipedInput(piped: string, argv: seq<string>, flags: seq<string>)
    requires |argv| <= 1
    requires NonEmptyAll(flags) && flags != []
    requires forall f :: f in flags ==> !Contains(Strip(piped), f)
    ensures RemoveFlags(CombinedText(Some(piped), argv), flags) == Strip(piped)
  {
    RemoveFlagsAbsent(Strip(piped), flags);
    StripTrimmed(Strip(piped));
  }
}
