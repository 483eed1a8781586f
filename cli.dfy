/** The option handling of main.go.  The command-line parser (gocmd) is not
    modelled: its result is a Flags record.  What is modelled is what main
    does around it: it takes the filename from the last argument, turns
    flags into an action in a fixed order of precedence, normalises the
    suffix, resolves --name/--no-name and picks the compression level and
    the operation to run.  The package globals `filename` and `suffix` and
    the argument list `os.Args` are the fields of class Invocation, whose
    method Launch is proved to agree with the pure decision MainAction. */
module Cli {
  import opened Wire
  import opened Transcode

  /** The flags main declares (Quiet and Filename, which it never reads,
      are omitted). */
  datatype Flags = Flags(
    stdout: bool, decompress: bool, force: bool, help: bool, keep: bool, list: bool,
    licence: bool, noName: bool, name: bool, recursive: bool, rsyncable: bool,
    suffix: string, test: bool, verbose: bool, version: bool,
    levelOne: bool, levelTwo: bool, levelThree: bool, levelFour: bool, levelFive: bool,
    levelSix: bool, levelSeven: bool, levelEight: bool, levelNine: bool)

  /** Why main stops with log.Fatal. */
  datatype Refusal =
    | StdoutUnsupported
    | ListUnsupported
    | RecursiveUnsupported
    | DevDevice         // "interacting dev devices is not implemented yet"
    | NameConflict      // "cannot specify both --name and --no-name"

  /** The file operation a handler calls (the verbose flag it also passes
      only controls logging). */
  datatype Command =
    | TestFile(filename: string)
    | DecompressFile(filename: string, suffix: string, keep: bool, force: bool)
    | CompressFile(filename: string, suffix: string, level: int, keep: bool, force: bool, named: bool)
    | XflateCompressFile(filename: string, suffix: string, level: int, keep: bool, force: bool, named: bool)

  datatype Action =
    | ShowVersion(licence: bool)   // version line, and the licence text when asked
    | ShowUsage
    | Exit(reason: Refusal)
    | Execute(command: Command)

  const DefaultFilename: string := "/dev/stdin"
  const DefaultSuffix: string := ".gz"

  /** Level flag `k` (1 to 9). */
  predicate LevelSet(f: Flags, k: int)
  {
    match k
    case 1 => f.levelOne
    case 2 => f.levelTwo
    case 3 => f.levelThree
    case 4 => f.levelFour
    case 5 => f.levelFive
    case 6 => f.levelSix
    case 7 => f.levelSeven
    case 8 => f.levelEight
    case 9 => f.levelNine
    case _ => false
  }

  /** getLevel: the lowest level whose flag is set, or 5. */
  function GetLevel(f: Flags): (level: int)
    ensures 1 <= level <= 9
    ensures (exists k :: 1 <= k <= 9 && LevelSet(f, k)) ==>
              LevelSet(f, level) && forall k :: 1 <= k < level ==> !LevelSet(f, k)
    ensures (forall k :: 1 <= k <= 9 ==> !LevelSet(f, k)) ==> level == 5
  {
    if LevelSet(f, 1) then 1
    else if LevelSet(f, 2) then 2
    else if LevelSet(f, 3) then 3
    else if LevelSet(f, 4) then 4
    else if LevelSet(f, 5) then 5
    else if LevelSet(f, 6) then 6
    else if LevelSet(f, 7) then 7
    else if LevelSet(f, 8) then 8
    else if LevelSet(f, 9) then 9
    else 5
  }

  /** A non-empty Suffix flag with a "." put in front when it lacks one. */
  function NormalisedSuffix(flag: string): (suffix: string)
    ensures HasPrefix(suffix, ".")
    ensures HasPrefix(flag, ".") ==> suffix == flag
    ensures !HasPrefix(flag, ".") ==> suffix == "." + flag
  {
    if HasPrefix(flag, ".") then flag else "." + flag
  }

  /** Normalising twice changes nothing more. */
  lemma NormalisedSuffixIdempotent(flag: string)
    ensures NormalisedSuffix(NormalisedSuffix(flag)) == NormalisedSuffix(flag)
  {
  }

  /** The --name/--no-name rule of compressHandler: names are stored
      unless --no-name alone is given; both together are refused. */
  function ResolveNamed(name: bool, noName: bool): (r: Result<bool, Refusal>)
    ensures r.Err? <==> name && noName
    ensures r.Err? ==> r.error == NameConflict
    ensures r.Ok? ==> (r.value <==> !noName)
  {
    if !name && !noName then Ok(true)
    else if name && noName then Err(NameConflict)
    else Ok(!noName)
  }

  /** The compress handler's choice: xflate mode exactly when --rsyncable. */
  function CompressCommand(f: Flags, filename: string, suffix: string, named: bool): (c: Command)
    ensures c.XflateCompressFile? <==> f.rsyncable
    ensures c.CompressFile? <==> !f.rsyncable
    ensures c.filename == filename && c.suffix == suffix && c.level == GetLevel(f)
    ensures c.keep == f.keep && c.force == f.force && c.named == named
  {
    if f.rsyncable then XflateCompressFile(filename, suffix, GetLevel(f), f.keep, f.force, named)
    else CompressFile(filename, suffix, GetLevel(f), f.keep, f.force, named)
  }

  /** main's first step: the last argument is the filename, and leaves the
      argument list, unless it starts with "-". */
  function FilenameFrom(args: seq<string>): (r: (string, seq<string>))
    ensures r.1 == args || (|args| > 0 && r.1 == args[..|args| - 1])
    ensures r.1 != args <==> |args| > 0 && !HasPrefix(args[|args| - 1], "-")
    ensures r.1 != args ==> r.0 == args[|args| - 1]
    ensures r.1 == args ==> r.0 == DefaultFilename
  {
    if |args| > 0 && !HasPrefix(args[|args| - 1], "-") then (args[|args| - 1], args[..|args| - 1])
    else (DefaultFilename, args)
  }

  /** The suffix a command receives: the Suffix flag normalised when given,
      otherwise ".gz". */
  function ChosenSuffix(f: Flags): (suffix: string)
    ensures HasPrefix(suffix, ".")
    ensures f.suffix != "" ==> suffix == NormalisedSuffix(f.suffix)
    ensures f.suffix == "" ==> suffix == DefaultSuffix
  {
    if f.suffix != "" then NormalisedSuffix(f.suffix) else DefaultSuffix
  }

  /** Neither version, licence, help nor an empty argument list stops main
      before its refusals. */
  predicate PastUsage(f: Flags, rest: seq<string>)
  {
    !f.version && !f.licence && !f.help && rest != []
  }

  /** None of main's refusals of unsupported modes and devices applies. */
  predicate Supported(f: Flags, filename: string, rest: seq<string>)
  {
    PastUsage(f, rest) && !f.stdout && !f.list && !f.recursive && !HasPrefix(filename, "/dev/")
  }

  /** What main does once the flags are parsed, in its order of precedence. */
  function Decision(f: Flags, filename: string, rest: seq<string>): (a: Action)
    ensures f.version || f.licence ==> a == ShowVersion(f.licence)
    ensures !f.version && !f.licence && (f.help || rest == []) ==> a == ShowUsage
    // No command runs on a device path, and every command's suffix starts with ".".
    ensures a.Execute? ==> !HasPrefix(a.command.filename, "/dev/") && a.command.filename == filename
    ensures a.Execute? && !a.command.TestFile? ==> HasPrefix(a.command.suffix, ".")
    // Test, then decompress, then compress.
    ensures a.Execute? ==> (a.command.TestFile? <==> f.test)
    ensures a.Execute? ==> (a.command.DecompressFile? <==> !f.test && f.decompress)
    ensures a.Execute? ==> (a.command.XflateCompressFile? <==> !f.test && !f.decompress && f.rsyncable)
    ensures a == Exit(NameConflict) ==> !f.test && !f.decompress && f.name && f.noName
    // The refusals, in order, once version and usage do not apply.
    ensures PastUsage(f, rest) && f.stdout ==> a == Exit(StdoutUnsupported)
    ensures PastUsage(f, rest) && !f.stdout && f.list ==> a == Exit(ListUnsupported)
    ensures PastUsage(f, rest) && !f.stdout && !f.list && f.recursive ==> a == Exit(RecursiveUnsupported)
    ensures PastUsage(f, rest) && !f.stdout && !f.list && !f.recursive && HasPrefix(filename, "/dev/")
            ==> a == Exit(DevDevice)
    // Past the refusals a command runs, unless compressing with both
    // --name and --no-name.
    ensures Supported(f, filename, rest) ==>
              (a.Execute? <==> !(!f.test && !f.decompress && f.name && f.noName))
    ensures Supported(f, filename, rest) && !f.test && !f.decompress && f.name && f.noName
            ==> a == Exit(NameConflict)
    // The command, with the chosen suffix and the keep and force flags.
    ensures Supported(f, filename, rest) && f.test ==> a == Execute(TestFile(filename))
    ensures Supported(f, filename, rest) && !f.test && f.decompress
            ==> a == Execute(DecompressFile(filename, ChosenSuffix(f), f.keep, f.force))
    ensures Supported(f, filename, rest) && !f.test && !f.decompress && ResolveNamed(f.name, f.noName).Ok?
            ==> a == Execute(CompressCommand(f, filename, ChosenSuffix(f), ResolveNamed(f.name, f.noName).value))
  {
    if f.version || f.licence then ShowVersion(f.licence)
    else if f.help || rest == [] then ShowUsage
    else if f.stdout then Exit(StdoutUnsupported)
    else if f.list then Exit(ListUnsupported)
    else if f.recursive then Exit(RecursiveUnsupported)
    else if HasPrefix(filename, "/dev/") then Exit(DevDevice)
    else
      var suffix := ChosenSuffix(f);
      if f.test then Execute(TestFile(filename))
      else if f.decompress then Execute(DecompressFile(filename, suffix, f.keep, f.force))
      else match ResolveNamed(f.name, f.noName)
        case Err(e) => Exit(e)
        case Ok(named) => Execute(CompressCommand(f, filename, suffix, named))
  }

  /** The whole of main from the raw argument list. */
  function MainAction(f: Flags, args: seq<string>): (a: Action)
    // A file is processed only when it is named by the last argument and the
    // list keeps at least one argument (the program name) before it.
    ensures a.Execute? ==> && |args| >= 2
                           && a.command.filename == args[|args| - 1]
                           && !HasPrefix(args[|args| - 1], "-")
  {
    var (filename, rest) := FilenameFrom(args);
    Decision(f, filename, rest)
  }

  /** Without a filename argument the filename stays /dev/stdin, which is
      refused: reading standard input is never reached. */
  lemma StdinRefused(f: Flags, args: seq<string>)
    requires |args| > 0 && HasPrefix(args[|args| - 1], "-")
    requires !f.version && !f.licence && !f.help && !f.stdout && !f.list && !f.recursive
    ensures MainAction(f, args) == Exit(DevDevice)
  {
    assert HasPrefix(DefaultFilename, "/dev/");
  }

  /** Run with the program name alone, main takes that name for the
      filename, is left with no arguments and prints usage. */
  lemma ProgramNameAloneShowsUsage(f: Flags, program: string)
    requires !HasPrefix(program, "-")
    requires !f.version && !f.licence
    ensures MainAction(f, [program]) == ShowUsage
  {
  }

  /** The package state main works on. */
  class Invocation {
    var filename: string
    var suffix: string
    var args: seq<string>

    constructor (args: seq<string>)
      ensures filename == DefaultFilename && suffix == DefaultSuffix && this.args == args
    {
      filename := DefaultFilename;
      suffix := DefaultSuffix;
      this.args := args;
    }

    /** Lines 32-38: the last argument becomes the filename and is dropped
        from the list unless it starts with "-". */
    method TakeFilename()
      modifies this
      ensures suffix == old(suffix)
      ensures if |old(args)| > 0 && !HasPrefix(old(args)[|old(args)| - 1], "-")
              then filename == old(args)[|old(args)| - 1] && args == old(args)[..|old(args)| - 1]
              else filename == old(filename) && args == old(args)
    {
      if |args| > 0 {
        var last := args[|args| - 1];
        if !HasPrefix(last, "-") {
          filename := last;
          args := args[..|args| - 1];
        }
      }
    }

    /** Lines 118-123: a non-empty Suffix flag replaces the suffix, with a
        "." put in front when missing. */
    method ApplySuffix(flag: string)
      modifies this
      ensures filename == old(filename) && args == old(args)
      ensures suffix == if flag != "" then NormalisedSuffix(flag) else old(suffix)
    {
      if |flag| > 0 {
        suffix := flag;
        if !HasPrefix(suffix, ".") {
          suffix := "." + suffix;
        }
      }
    }

    /** compressHandler: resolves the local `named` by reassignment, then
        picks the operation. */
    method CompressHandler(f: Flags) returns (a: Action)
      ensures ResolveNamed(f.name, f.noName).Err? ==> a == Exit(NameConflict)
      ensures ResolveNamed(f.name, f.noName).Ok? ==>
                a == Execute(CompressCommand(f, filename, suffix, ResolveNamed(f.name, f.noName).value))
    {
      var named := f.name;
      var notNamed := f.noName;
      if !named && !notNamed {
        named := true;
      } else if named && notNamed {
        return Exit(NameConflict);
      } else if notNamed {
        named := false;
      }
      var level := GetLevel(f);
      if f.rsyncable {
        return Execute(XflateCompressFile(filename, suffix, level, f.keep, f.force, named));
      }
      return Execute(CompressFile(filename, suffix, level, f.keep, f.force, named));
    }

    /** main, from the state the package starts in. */
    method Launch(f: Flags) returns (a: Action)
      requires filename == DefaultFilename && suffix == DefaultSuffix
      modifies this
      ensures a == MainAction(f, old(args))
    {
      TakeFilename();
      if f.version || f.licence {
        return ShowVersion(f.licence);
      }
      if f.help || |args| == 0 {
        return ShowUsage;
      }
      if f.stdout {
        return Exit(StdoutUnsupported);
      }
      if f.list {
        return Exit(ListUnsupported);
      }
      if f.recursive {
        return Exit(RecursiveUnsupported);
      }
      if HasPrefix(filename, "/dev/") {
        return Exit(DevDevice);
      }
      ApplySuffix(f.suffix);
      if f.test {
        return Execute(TestFile(filename));
      }
      if f.decompress {
        return Execute(DecompressFile(filename, suffix, f.keep, f.force));
      }
      a := CompressHandler(f);
    }
  }
}
