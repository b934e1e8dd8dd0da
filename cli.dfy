/** The command line of src/main.cpp: `parseCommandLine`, the overlay of the
    options given onto the derived record, and the pipeline `main` runs. */
module Cli {
  import opened Wrappers
  import opened Snippet

  /** `CommandLineArgs`: an absent option is None; input and output are
      empty strings until given. */
  datatype CommandLineArgs = CommandLineArgs(
    inputFile: string,
    outputFile: string,
    name: Option<string>,
    prefix: Option<string>,
    description: Option<string>,
    append: bool)

  /** The default-constructed `CommandLineArgs` that `main` passes in. */
  const NoArgs := CommandLineArgs("", "", None, None, None, false)

  /** The five options that take a value. */
  datatype Field = Input | Output | Name | Prefix | Description

  predicate IsHelp(arg: string) {
    arg == "-h" || arg == "--help"
  }

  predicate IsAppend(arg: string) {
    arg == "-a" || arg == "--append"
  }

  /** The field a value-taking flag sets, in either spelling. */
  function ValueFlag(arg: string): Option<Field> {
    if arg == "-i" || arg == "--input" then Some(Input)
    else if arg == "-o" || arg == "--output" then Some(Output)
    else if arg == "-n" || arg == "--name" then Some(Name)
    else if arg == "-p" || arg == "--prefix" then Some(Prefix)
    else if arg == "-d" || arg == "--description" then Some(Description)
    else None
  }

  function SetField(args: CommandLineArgs, f: Field, v: string): CommandLineArgs {
    match f
    case Input => args.(inputFile := v)
    case Output => args.(outputFile := v)
    case Name => args.(name := Some(v))
    case Prefix => args.(prefix := Some(v))
    case Description => args.(description := Some(v))
  }

  /** Where the left-to-right scan of the arguments stops, with the
      arguments filled in so far. */
  datatype Scan =
    | Completed(args: CommandLineArgs)
    | HelpRequested(args: CommandLineArgs)
    | MissingValue(args: CommandLineArgs, flag: string)
    | UnknownOption(args: CommandLineArgs, option: string)

  /** The scan over the arguments still to be read. */
  function ScanArgs(rest: seq<string>, acc: CommandLineArgs): Scan
    decreases |rest|
  {
    if rest == [] then Completed(acc)
    else if IsHelp(rest[0]) then HelpRequested(acc)
    else if ValueFlag(rest[0]).Some? then
      if |rest| < 2 then MissingValue(acc, rest[0])
      else ScanArgs(rest[2..], SetField(acc, ValueFlag(rest[0]).value, rest[1]))
    else if IsAppend(rest[0]) then ScanArgs(rest[1..], acc.(append := true))
    else UnknownOption(acc, rest[0])
  }

  /** `argv` without the program name. */
  function Arguments(argv: seq<string>): seq<string> {
    if argv == [] then [] else argv[1..]
  }

  lemma ArgumentsAfter(program: string, xs: seq<string>)
    ensures Arguments([program] + xs) == xs
  {
    assert ([program] + xs)[1..] == xs;
  }

  /** The verdict of `parseCommandLine` and the arguments it leaves behind:
      success needs a completed scan, an input and an output, and an input
      that exists. */
  function ParseResult(argv: seq<string>, fileExists: string -> bool): (bool, CommandLineArgs) {
    var scan := ScanArgs(Arguments(argv), NoArgs);
    var args := scan.args;
    (scan.Completed? && args.inputFile != [] && args.outputFile != [] && fileExists(args.inputFile), args)
  }

  /** One step of the scan, read at position `i` of `argv`. */
  lemma ScanAt(argv: seq<string>, i: nat, acc: CommandLineArgs)
    requires i < |argv|
    ensures ScanArgs(argv[i..], acc) ==
      if IsHelp(argv[i]) then HelpRequested(acc)
      else if ValueFlag(argv[i]).Some? then
        if i + 1 >= |argv| then MissingValue(acc, argv[i])
        else ScanArgs(argv[i + 2..], SetField(acc, ValueFlag(argv[i]).value, argv[i + 1]))
      else if IsAppend(argv[i]) then ScanArgs(argv[i + 1..], acc.(append := true))
      else UnknownOption(acc, argv[i])
  {
    assert argv[i..][0] == argv[i];
    if i + 1 < |argv| {
      assert argv[i..][2..] == argv[i + 2..];
    }
    assert argv[i..][1..] == argv[i + 1..];
  }

  /** `parseCommandLine`. `fileExists` stands for `fs::exists`; the messages it
      prints are not modelled. */
  method ParseCommandLine(argv: seq<string>, fileExists: string -> bool) returns (ok: bool, args: CommandLineArgs)
    ensures (ok, args) == ParseResult(argv, fileExists)
    ensures ok ==> args.inputFile != [] && args.outputFile != [] && fileExists(args.inputFile)
  {
    args := NoArgs;
    ghost var target := ScanArgs(Arguments(argv), NoArgs);
    var i := 1;
    while i < |argv|
      invariant 1 <= i <= |argv| || argv == []
      invariant argv != [] ==> ScanArgs(argv[i..], args) == target
      invariant argv == [] ==> args == NoArgs
    {
      var arg := argv[i];
      ScanAt(argv, i, args);
      if IsHelp(arg) {
        return false, args;
      } else if ValueFlag(arg).Some? {
        // `-i`, `-o`, `-n`, `-p` and `-d` (and their long spellings) all
        // take the next argument, or fail when there is none.
        i := i + 1;
        if i >= |argv| {
          return false, args;
        }
        args := SetField(args, ValueFlag(arg).value, argv[i]);
      } else if IsAppend(arg) {
        args := args.(append := true);
      } else {
        return false, args;
      }
      i := i + 1;
    }
    assert argv != [] ==> argv[i..] == [];
    assert target == Completed(args);

    if args.inputFile == [] || args.outputFile == [] {
      return false, args;
    }

    if !fileExists(args.inputFile) {
      return false, args;
    }

    return true, args;
  }

  // ---------------------------------------------------------------------
  // Command lines built from options, and what the scan makes of them.

  /** One option as a user writes it, in its short or long spelling. */
  datatype Opt = Value(field: Field, long: bool, value: string) | AppendFlag(long: bool)

  function Spelling(f: Field, long: bool): string {
    match f
    case Input => if long then "--input" else "-i"
    case Output => if long then "--output" else "-o"
    case Name => if long then "--name" else "-n"
    case Prefix => if long then "--prefix" else "-p"
    case Description => if long then "--description" else "-d"
  }

  function RenderOpt(o: Opt): seq<string> {
    match o
    case Value(f, long, v) => [Spelling(f, long), v]
    case AppendFlag(long) => [if long then "--append" else "-a"]
  }

  /** The arguments that spell out a list of options. */
  function Render(opts: seq<Opt>): seq<string> {
    if opts == [] then [] else RenderOpt(opts[0]) + Render(opts[1..])
  }

  function Apply(args: CommandLineArgs, o: Opt): CommandLineArgs {
    match o
    case Value(f, _, v) => SetField(args, f, v)
    case AppendFlag(_) => args.(append := true)
  }

  function ApplyAll(args: CommandLineArgs, opts: seq<Opt>): CommandLineArgs
    decreases |opts|
  {
    if opts == [] then args else ApplyAll(Apply(args, opts[0]), opts[1..])
  }

  /** The value of the last option for field `f`, if there is one. */
  function LastValue(opts: seq<Opt>, f: Field): Option<string> {
    if opts == [] then None
    else
      var o := opts[|opts| - 1];
      if o.Value? && o.field == f then Some(o.value) else LastValue(opts[..|opts| - 1], f)
  }

  predicate HasAppend(opts: seq<Opt>) {
    exists i :: 0 <= i < |opts| && opts[i].AppendFlag?
  }

  lemma SpellingIsValueFlag(f: Field, long: bool)
    ensures ValueFlag(Spelling(f, long)) == Some(f)
    ensures !IsHelp(Spelling(f, long)) && !IsAppend(Spelling(f, long))
  {
  }

  /** The scan reads a rendered option list one option at a time. */
  lemma {:induction false} ScanRendered(opts: seq<Opt>, rest: seq<string>, acc: CommandLineArgs)
    ensures ScanArgs(Render(opts) + rest, acc) == ScanArgs(rest, ApplyAll(acc, opts))
    decreases |opts|
  {
    if opts == [] {
      assert Render(opts) + rest == rest;
    } else {
      var o, more := opts[0], opts[1..];
      var tail := Render(more) + rest;
      assert Render(opts) + rest == RenderOpt(o) + tail;
      match o {
        case Value(f, long, v) => ScanValue(f, long, v, tail, acc);
        case AppendFlag(long) => ScanAppendFlag(long, tail, acc);
      }
      ScanRendered(more, rest, Apply(acc, o));
    }
  }

  /** A value-taking flag and its value are read as one step. */
  lemma ScanValue(f: Field, long: bool, v: string, tail: seq<string>, acc: CommandLineArgs)
    ensures ScanArgs([Spelling(f, long), v] + tail, acc) == ScanArgs(tail, SetField(acc, f, v))
  {
    SpellingIsValueFlag(f, long);
    assert ([Spelling(f, long), v] + tail)[2..] == tail;
  }

  /** `-a` or `--append` is read as one step. */
  lemma ScanAppendFlag(long: bool, tail: seq<string>, acc: CommandLineArgs)
    ensures ScanArgs([if long then "--append" else "-a"] + tail, acc) == ScanArgs(tail, acc.(append := true))
  {
    assert ([if long then "--append" else "-a"] + tail)[1..] == tail;
  }

  lemma {:induction false} ApplyAllSnoc(acc: CommandLineArgs, opts: seq<Opt>, o: Opt)
    ensures ApplyAll(acc, opts + [o]) == Apply(ApplyAll(acc, opts), o)
    decreases |opts|
  {
    if opts == [] {
      assert opts + [o] == [o];
    } else {
      assert (opts + [o])[1..] == opts[1..] + [o];
      ApplyAllSnoc(Apply(acc, opts[0]), opts[1..], o);
    }
  }

  /** After a list of options, each value field holds the value of its last
      occurrence, or what it held before when the option never occurs; the
      append flag is set once `-a` occurs anywhere. */
  lemma {:induction false} ApplyAllFields(acc: CommandLineArgs, opts: seq<Opt>)
    ensures var r := ApplyAll(acc, opts);
      && r.inputFile == LastValue(opts, Input).GetOr(acc.inputFile)
      && r.outputFile == LastValue(opts, Output).GetOr(acc.outputFile)
      && r.name == (if LastValue(opts, Name).Some? then LastValue(opts, Name) else acc.name)
      && r.prefix == (if LastValue(opts, Prefix).Some? then LastValue(opts, Prefix) else acc.prefix)
      && r.description == (if LastValue(opts, Description).Some? then LastValue(opts, Description) else acc.description)
      && r.append == (acc.append || HasAppend(opts))
    decreases |opts|
  {
    if opts != [] {
      var init, o := opts[..|opts| - 1], opts[|opts| - 1];
      assert opts == init + [o];
      ApplyAllSnoc(acc, init, o);
      ApplyAllFields(acc, init);
      LastValueSnoc(init, o);
      HasAppendSnoc(init, o);
      ApplyFields(ApplyAll(acc, init), o);
    }
  }

  /** One option changes the field it names, or the append flag, and no
      other field. */
  lemma ApplyFields(args: CommandLineArgs, o: Opt)
    ensures var r := Apply(args, o);
      && r.inputFile == (if o.Value? && o.field == Input then o.value else args.inputFile)
      && r.outputFile == (if o.Value? && o.field == Output then o.value else args.outputFile)
      && r.name == (if o.Value? && o.field == Name then Some(o.value) else args.name)
      && r.prefix == (if o.Value? && o.field == Prefix then Some(o.value) else args.prefix)
      && r.description == (if o.Value? && o.field == Description then Some(o.value) else args.description)
      && r.append == (args.append || o.AppendFlag?)
  {
  }

  lemma LastValueSnoc(init: seq<Opt>, o: Opt)
    ensures forall f :: LastValue(init + [o], f) == (if o.Value? && o.field == f then Some(o.value) else LastValue(init, f))
  {
    assert (init + [o])[..|init|] == init;
  }

  lemma HasAppendSnoc(init: seq<Opt>, o: Opt)
    ensures HasAppend(init + [o]) <==> HasAppend(init) || o.AppendFlag?
  {
    var opts := init + [o];
    if HasAppend(init) {
      var i :| 0 <= i < |init| && init[i].AppendFlag?;
      assert opts[i].AppendFlag?;
    }
    if o.AppendFlag? {
      assert opts[|init|].AppendFlag?;
    }
    if HasAppend(opts) && !o.AppendFlag? {
      var i :| 0 <= i < |opts| && opts[i].AppendFlag?;
      assert init[i].AppendFlag?;
    }
  }

  /** A command line made of options only: the scan completes, and when an
      option is repeated the last occurrence wins; options never given keep
      their defaults. */
  lemma LastOccurrenceWins(program: string, opts: seq<Opt>, fileExists: string -> bool)
    ensures var (ok, args) := ParseResult([program] + Render(opts), fileExists);
      && ScanArgs(Render(opts), NoArgs).Completed?
      && args.inputFile == LastValue(opts, Input).GetOr("")
      && args.outputFile == LastValue(opts, Output).GetOr("")
      && args.name == LastValue(opts, Name)
      && args.prefix == LastValue(opts, Prefix)
      && args.description == LastValue(opts, Description)
      && args.append == HasAppend(opts)
      && (ok <==> args.inputFile != [] && args.outputFile != [] && fileExists(args.inputFile))
  {
    assert Arguments([program] + Render(opts)) == Render(opts);
    ScanRendered(opts, [], NoArgs);
    assert Render(opts) + [] == Render(opts);
    ApplyAllFields(NoArgs, opts);
  }

  /** `-h` or `--help` where an option is expected makes the parse fail,
      whatever follows. */
  lemma HelpFails(program: string, opts: seq<Opt>, help: string, rest: seq<string>, fileExists: string -> bool)
    requires IsHelp(help)
    ensures !ParseResult([program] + Render(opts) + [help] + rest, fileExists).0
  {
    var tail := [help] + rest;
    assert [program] + Render(opts) + [help] + rest == [program] + (Render(opts) + tail);
    ArgumentsAfter(program, Render(opts) + tail);
    ScanRendered(opts, tail, NoArgs);
    assert tail[0] == help;
  }

  /** A value-taking flag as the last argument makes the parse fail. */
  lemma TrailingFlagFails(program: string, opts: seq<Opt>, flag: string, fileExists: string -> bool)
    requires ValueFlag(flag).Some?
    ensures !ParseResult([program] + Render(opts) + [flag], fileExists).0
  {
    var argv := [program] + Render(opts) + [flag];
    assert Arguments(argv) == Render(opts) + [flag];
    ScanRendered(opts, [flag], NoArgs);
  }

  /** An argument that is no option, where an option is expected, makes the
      parse fail, whatever follows. */
  lemma UnknownOptionFails(program: string, opts: seq<Opt>, arg: string, rest: seq<string>, fileExists: string -> bool)
    requires !IsHelp(arg) && ValueFlag(arg).None? && !IsAppend(arg)
    ensures !ParseResult([program] + Render(opts) + [arg] + rest, fileExists).0
  {
    var tail := [arg] + rest;
    assert [program] + Render(opts) + [arg] + rest == [program] + (Render(opts) + tail);
    ArgumentsAfter(program, Render(opts) + tail);
    ScanRendered(opts, tail, NoArgs);
    assert tail[0] == arg;
  }

  /** Conversely, a scan completes only on a rendered option list, and then
      it has applied exactly those options. */
  lemma CompletedIsRendered(rest: seq<string>, acc: CommandLineArgs)
    requires ScanArgs(rest, acc).Completed?
    ensures exists opts :: Render(opts) == rest && ScanArgs(rest, acc).args == ApplyAll(acc, opts)
  {
    var opts := RenderedOptions(rest, acc);
  }

  /** The options a completed scan has read, in order. */
  lemma {:induction false} RenderedOptions(rest: seq<string>, acc: CommandLineArgs) returns (opts: seq<Opt>)
    requires ScanArgs(rest, acc).Completed?
    ensures Render(opts) == rest && ScanArgs(rest, acc).args == ApplyAll(acc, opts)
    decreases |rest|
  {
    if rest == [] {
      opts := [];
    } else {
      var o, n := ScanHead(rest, acc);
      var more := RenderedOptions(rest[n..], Apply(acc, o));
      opts := [o] + more;
      ConsOpt(acc, o, more);
      assert rest[..n] + rest[n..] == rest;
    }
  }

  lemma ConsOpt(acc: CommandLineArgs, o: Opt, more: seq<Opt>)
    ensures Render([o] + more) == RenderOpt(o) + Render(more)
    ensures ApplyAll(acc, [o] + more) == ApplyAll(Apply(acc, o), more)
  {
    assert ([o] + more)[1..] == more;
  }

  /** The first step of a scan that completes reads one whole option. */
  lemma ScanHead(rest: seq<string>, acc: CommandLineArgs) returns (o: Opt, n: nat)
    requires rest != [] && ScanArgs(rest, acc).Completed?
    ensures 1 <= n <= |rest| && RenderOpt(o) == rest[..n]
    ensures ScanArgs(rest, acc) == ScanArgs(rest[n..], Apply(acc, o))
  {
    var a := rest[0];
    if ValueFlag(a).Some? {
      SpellingOf(a);
      o, n := Value(ValueFlag(a).value, |a| > 2, rest[1]), 2;
    } else {
      o, n := AppendFlag(|a| > 2), 1;
    }
  }

  /** Each value-taking flag is one of the two spellings of its field. */
  lemma SpellingOf(a: string)
    requires ValueFlag(a).Some?
    ensures Spelling(ValueFlag(a).value, |a| > 2) == a
  {
  }

  // ---------------------------------------------------------------------
  // The overlay and the pipeline of `main`.

  /** The record after `main` has replaced each field for which an option
      was given (src/main.cpp:263-265). */
  function Overlay(config: SnippetConfig, args: CommandLineArgs): SnippetConfig {
    SnippetConfig(
      args.name.GetOr(config.name),
      args.prefix.GetOr(config.prefix),
      args.description.GetOr(config.description))
  }

  /** The overlay replaces exactly the fields given on the command line,
      each independently of the others, and applying it twice is applying
      it once. */
  lemma OverlayOnlyGiven(config: SnippetConfig, args: CommandLineArgs)
    ensures var r := Overlay(config, args);
      && (args.name.None? ==> r.name == config.name)
      && (args.name.Some? ==> r.name == args.name.value)
      && (args.prefix.None? ==> r.prefix == config.prefix)
      && (args.prefix.Some? ==> r.prefix == args.prefix.value)
      && (args.description.None? ==> r.description == config.description)
      && (args.description.Some? ==> r.description == args.description.value)
      && Overlay(r, args) == r
      && (args.name.None? && args.prefix.None? && args.description.None? ==> r == config)
  {
  }

  /** What a run leaves behind: nothing, after a usage error, or the text
      written to the output path. */
  datatype Outcome = UsageError | Written(path: string, content: string)

  /** The derived record with the command-line options laid over it. */
  function EffectiveConfig(stem: string, args: CommandLineArgs): SnippetConfig {
    var base := GetBaseName(stem);
    Overlay(SnippetConfig(base, Collapse(Lowered(base)), "Code snippet from " + base), args)
  }

  /** The outcome of `main`. The environment is given as functions:
      `fileExists` for `fs::exists`, `stemOf` for `fs::path::stem`, `readLines`
      for reading the input file as lines and `readText` for reading the
      existing output file whole. */
  function RunResult(argv: seq<string>, fileExists: string -> bool, stemOf: string -> string,
                     readLines: string -> seq<string>, readText: string -> string): Outcome
  {
    var (ok, args) := ParseResult(argv, fileExists);
    if !ok then UsageError
    else
      var json := SnippetJson(EffectiveConfig(stemOf(args.inputFile), args), readLines(args.inputFile));
      var existing := if fileExists(args.outputFile) then readText(args.outputFile) else "";
      Written(args.outputFile, if args.append then Merge(existing, json) else Wrap(json))
  }

  /** `main` without its console output and exception handling: exit status
      1 and nothing written on a usage error, otherwise status 0 and the
      snippets text written to the output path. */
  method Run(argv: seq<string>, fileExists: string -> bool, stemOf: string -> string,
             readLines: string -> seq<string>, readText: string -> string)
    returns (exitCode: int, outcome: Outcome)
    ensures outcome == RunResult(argv, fileExists, stemOf, readLines, readText)
    ensures exitCode == (if outcome.UsageError? then 1 else 0)
  {
    var ok, args := ParseCommandLine(argv, fileExists);
    if !ok {
      return 1, UsageError;
    }

    var config := GenerateConfigFromFilename(stemOf(args.inputFile));

    if args.name.Some? {
      config := config.(name := args.name.value);
    }
    if args.prefix.Some? {
      config := config.(prefix := args.prefix.value);
    }
    if args.description.Some? {
      config := config.(description := args.description.value);
    }
    assert config == EffectiveConfig(stemOf(args.inputFile), args);

    var contentLines := readLines(args.inputFile);
    var snippetJson := GenerateSnippetJson(config, contentLines);

    var content;
    if args.append {
      var existing := if fileExists(args.outputFile) then readText(args.outputFile) else "";
      content := MergeSnippets(existing, snippetJson);
    } else {
      content := "{\n" + snippetJson + "\n}\n";
    }
    return 0, Written(args.outputFile, content);
  }

  /** End to end, the options given win over the values derived from the
      input's base name, field by field, with the last occurrence of a
      repeated option deciding. */
  lemma CliOverridesDerived(program: string, opts: seq<Opt>, stem: string)
    ensures var args := ParseResult([program] + Render(opts), _ => true).1;
      var base := GetBaseName(stem);
      var c := EffectiveConfig(stem, args);
      && c.name == LastValue(opts, Name).GetOr(base)
      && c.prefix == LastValue(opts, Prefix).GetOr(Collapse(Lowered(base)))
      && c.description == LastValue(opts, Description).GetOr("Code snippet from " + base)
  {
    LastOccurrenceWins(program, opts, _ => true);
  }

  /** A worked run: `my_util.py` holding two lines, written to a file that
      does not exist yet, with no other options. */
  lemma MyUtilExample()
    ensures RunResult(["code2snippet", "-i", "my_util.py", "-o", "snippets.json"], p => p == "my_util.py",
                      p => "my_util", p => ["def f():", "    pass"], p => "")
         == Written("snippets.json",
                    Wrap(SnippetJson(SnippetConfig("my_util", "my util", "Code snippet from my_util"),
                                     ["def f():", "    pass"])))
  {
    MyUtilArguments();
    MyUtilConfig();
  }

  lemma MyUtilArguments()
    ensures ParseResult(["code2snippet", "-i", "my_util.py", "-o", "snippets.json"], p => p == "my_util.py")
         == (true, NoArgs.(inputFile := "my_util.py", outputFile := "snippets.json"))
  {
    var argv := ["code2snippet", "-i", "my_util.py", "-o", "snippets.json"];
    var withInput := NoArgs.(inputFile := "my_util.py");
    assert Arguments(argv) == ["-i", "my_util.py", "-o", "snippets.json"];
    assert ValueFlag("-i") == Some(Input);
    assert ValueFlag("-o") == Some(Output);
    assert ["-i", "my_util.py", "-o", "snippets.json"][2..] == ["-o", "snippets.json"];
    assert ScanArgs(["-o", "snippets.json"], withInput) == Completed(withInput.(outputFile := "snippets.json"));
  }

  lemma MyUtilConfig()
    ensures EffectiveConfig("my_util", NoArgs.(inputFile := "my_util.py", outputFile := "snippets.json"))
         == SnippetConfig("my_util", "my util", "Code snippet from my_util")
  {
    var lowered := Lowered("my_util");
    assert lowered == "my util";
    assert NoDoubleSpace(lowered);
    CollapseFixed(lowered);
  }
}
