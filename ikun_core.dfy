/** The command-line manager of ikun_core.cpp: main's loop over argv, the
    guard that keeps uninstall away from the library's own files, and
    check_lib_install. Printing, git downloads and shell commands become
    entries of an action log; what the disk holds and which downloads fail
    are parameters. */
module IkunCore {

  /** The names uninstall_lib refuses and check_lib_install reports as
      installed without looking at the disk ("github" is listed twice in
      the source; a set holds it once). */
  const PROTECTED: set<string> := {"core", "functions", "all_libs", "stdc++lib",
    "high_precision_digit", "github", "test_high_precision_digit"}

  /** The options main recognises, in the order it tests them. */
  datatype Opt = VersionOpt | HelpOpt | ListOpt | InstallHeaderOpt | InstallOpt | UninstallOpt | CheckOpt | UnknownOpt

  /** One visible effect of a run. */
  datatype Action =
    | Title                                   // the banner printed first
    | NoOption                                // "no option given"
    | Help
    | Version
    | ListLibs                                // opens the project page
    | InstallHeader(name: string, failed: bool)
    | InstallLib(name: string, failed: bool)
    | UninstallRefused(name: string)
    | Uninstall(name: string)                 // the three delete commands
    | Checked(name: string, installed: bool)
    | MissingName(opt: Opt)                   // option without its argument
    | UnknownOption(arg: string)

  /** What main returns together with what it did. */
  datatype Outcome = Outcome(code: int, log: seq<Action>)

  /** The option an argument spells, short or long form. */
  function Classify(arg: string): Opt {
    if arg == "-v" || arg == "--version" then VersionOpt
    else if arg == "-h" || arg == "--help" then HelpOpt
    else if arg == "-l" || arg == "--list" then ListOpt
    else if arg == "-ih" || arg == "--install-header" then InstallHeaderOpt
    else if arg == "-i" || arg == "--install" then InstallOpt
    else if arg == "-u" || arg == "--uninstall" then UninstallOpt
    else if arg == "-c" || arg == "--check" then CheckOpt
    else UnknownOpt
  }

  /** Options that act and end the program. */
  predicate Terminal(o: Opt) {
    o == VersionOpt || o == HelpOpt || o == ListOpt
  }

  /** Options that take the next argument as a library name. */
  predicate TakesName(o: Opt) {
    o == InstallHeaderOpt || o == InstallOpt || o == UninstallOpt || o == CheckOpt
  }

  lemma OptionKinds(o: Opt)
    ensures Terminal(o) || TakesName(o) || o == UnknownOpt
    ensures !(Terminal(o) && TakesName(o))
  {
  }

  // ---------------------------------------------------------------------------
  // check_lib_install and uninstall_lib

  /** check_lib_install: protected names count as installed; any other
      name is installed when name + ".hpp" exists. `disk` is the set of
      paths fileexists reports. */
  function CheckLibInstall(name: string, disk: set<string>): bool {
    if name in PROTECTED then true else name + ".hpp" in disk
  }

  /** uninstall_lib: refuses a protected name, otherwise runs the deletes
      (after waiting for Enter, which is not modelled). */
  function UninstallLib(name: string): Action {
    if name in PROTECTED then UninstallRefused(name) else Uninstall(name)
  }

  /** uninstall refuses exactly the names that check_lib_install accepts
      without looking at the disk, and only those. */
  lemma UninstallGuardMatchesCheck(name: string)
    ensures UninstallLib(name).UninstallRefused? <==> forall disk: set<string> :: CheckLibInstall(name, disk)
    ensures !UninstallLib(name).UninstallRefused? ==> UninstallLib(name) == Uninstall(name)
  {
    if !(name in PROTECTED) {
      assert !CheckLibInstall(name, {});
    }
  }

  /** For other names the check is the disk lookup. */
  lemma CheckReadsDisk(name: string, disk: set<string>)
    requires name !in PROTECTED
    ensures CheckLibInstall(name, disk) <==> name + ".hpp" in disk
    ensures CheckLibInstall(name, disk + {name + ".hpp"})
  {
  }

  lemma ProtectedExamples()
    ensures UninstallLib("core") == UninstallRefused("core")
    ensures UninstallLib("github") == UninstallRefused("github")
    ensures UninstallLib("maths") == Uninstall("maths")
    ensures CheckLibInstall("high_precision_digit", {})
    ensures !CheckLibInstall("maths", {})
  {
    assert "maths" !in PROTECTED;
  }

  // ---------------------------------------------------------------------------
  // main

  /** The action of an option that takes `name`. install_header fails when
      the download of name + ".hpp" reports failure, install_lib when the
      download of the folder or of the header does; `failing` is the set of
      paths whose download reports failure. */
  function NamedAction(o: Opt, name: string, disk: set<string>, failing: set<string>): Action
    requires TakesName(o)
  {
    match o
      case InstallHeaderOpt => InstallHeader(name, name + ".hpp" in failing)
      case InstallOpt => InstallLib(name, name in failing || name + ".hpp" in failing)
      case UninstallOpt => UninstallLib(name)
      case CheckOpt => Checked(name, CheckLibInstall(name, disk))
  }

  /** The action of an option that ends the program. */
  function TerminalAction(o: Opt): Action
    requires Terminal(o)
  {
    match o
      case VersionOpt => Version
      case HelpOpt => Help
      case ListOpt => ListLibs
  }

  /** The loop of main from argv[i] on. */
  function Dispatch(args: seq<string>, i: nat, disk: set<string>, failing: set<string>): Outcome
    requires 1 <= i <= |args|
    decreases |args| - i
  {
    if i == |args| then Outcome(0, [])
    else
      var o := Classify(args[i]);
      if Terminal(o) then Outcome(0, [TerminalAction(o)])
      else if TakesName(o) then
        if i + 1 < |args| then
          var rest := Dispatch(args, i + 2, disk, failing);
          Outcome(rest.code, [NamedAction(o, args[i + 1], disk, failing)] + rest.log)
        else Outcome(1, [MissingName(o)])
      else Outcome(1, [UnknownOption(args[i]), Help])
  }

  /** What main does with argv (argv[0] included, so argc == |args|). */
  function Program(args: seq<string>, disk: set<string>, failing: set<string>): Outcome {
    if |args| < 2 then Outcome(1, [Title, NoOption, Help])
    else
      var o := Dispatch(args, 1, disk, failing);
      Outcome(o.code, [Title] + o.log)
  }

  /** main: prints the banner, then walks argv with an index it also bumps
      past a consumed library name, returning from inside the loop on a
      terminal option, a missing name or an unknown option. */
  method Run(args: seq<string>, disk: set<string>, failing: set<string>) returns (code: int, log: seq<Action>)
    ensures Outcome(code, log) == Program(args, disk, failing)
  {
    log := [Title];
    if |args| < 2 {
      log := log + [NoOption, Help];
      return 1, log;
    }
    var i := 1;
    while i < |args|
      invariant 1 <= i <= |args|
      invariant var o := Dispatch(args, i, disk, failing);
        Program(args, disk, failing) == Outcome(o.code, log + o.log)
    {
      var opt := Classify(args[i]);
      DispatchAt(args, i, disk, failing);
      if Terminal(opt) {
        log := log + [TerminalAction(opt)];
        return 0, log;
      } else if TakesName(opt) {
        if i + 1 < |args| {
          log := log + [NamedAction(opt, args[i + 1], disk, failing)];
          i := i + 1;
        } else {
          log := log + [MissingName(opt)];
          return 1, log;
        }
      } else {
        log := log + [UnknownOption(args[i]), Help];
        return 1, log;
      }
      i := i + 1;
    }
    return 0, log;
  }

  /** One step of Dispatch, by the kind of option at argv[i]. */
  lemma DispatchAt(args: seq<string>, i: nat, disk: set<string>, failing: set<string>)
    requires 1 <= i < |args|
    ensures var o := Classify(args[i]);
      var d := Dispatch(args, i, disk, failing);
      (Terminal(o) ==> d == Outcome(0, [TerminalAction(o)])) &&
      (TakesName(o) && i + 1 < |args| ==>
        d == Outcome(Dispatch(args, i + 2, disk, failing).code,
                     [NamedAction(o, args[i + 1], disk, failing)] + Dispatch(args, i + 2, disk, failing).log)) &&
      (TakesName(o) && i + 1 == |args| ==> d == Outcome(1, [MissingName(o)])) &&
      (o == UnknownOpt ==> d == Outcome(1, [UnknownOption(args[i]), Help]))
  {
  }

  // ---------------------------------------------------------------------------
  // properties of main

  /** Without an option the program prints help and fails. */
  lemma NoArguments(args: seq<string>, disk: set<string>, failing: set<string>)
    requires |args| < 2
    ensures Program(args, disk, failing).code == 1
    ensures Help in Program(args, disk, failing).log
  {
  }

  /** A terminal option reached by the loop ends the run with 0, and the
      arguments after it are never read. */
  lemma TerminalStops(args: seq<string>, extra: seq<string>, i: nat, disk: set<string>, failing: set<string>)
    requires 1 <= i < |args| && Terminal(Classify(args[i]))
    ensures Dispatch(args, i, disk, failing) == Dispatch(args + extra, i, disk, failing)
    ensures Dispatch(args, i, disk, failing).code == 0
    ensures |Dispatch(args, i, disk, failing).log| == 1
  {
    assert (args + extra)[i] == args[i];
  }

  /** An option that takes a name consumes exactly the next argument, even
      one that looks like an option; with none left the run fails. */
  lemma NameConsumed(args: seq<string>, i: nat, disk: set<string>, failing: set<string>)
    requires 1 <= i < |args| && TakesName(Classify(args[i]))
    ensures i + 1 < |args| ==>
      Dispatch(args, i, disk, failing).log[0].name == args[i + 1] &&
      Dispatch(args, i, disk, failing).code == Dispatch(args, i + 2, disk, failing).code &&
      Dispatch(args, i, disk, failing).log[1..] == Dispatch(args, i + 2, disk, failing).log
    ensures i + 1 == |args| ==>
      Dispatch(args, i, disk, failing) == Outcome(1, [MissingName(Classify(args[i]))])
  {
    if i + 1 < |args| {
      var o := Classify(args[i]);
      match o
      case UninstallOpt =>
        assert UninstallLib(args[i + 1]).name == args[i + 1];
      case _ =>
    }
  }

  /** The command lines main accepts: options with their names, ending at
      the end of argv or at a terminal option. */
  predicate Accepted(args: seq<string>, i: nat)
    requires 1 <= i <= |args|
    decreases |args| - i
  {
    i == |args| ||
    Terminal(Classify(args[i])) ||
    (TakesName(Classify(args[i])) && i + 1 < |args| && Accepted(args, i + 2))
  }

  /** main returns 0 exactly on accepted command lines and 1 otherwise,
      whatever the disk holds and whichever downloads fail. */
  lemma {:induction false} ExitCode(args: seq<string>, i: nat, disk: set<string>, failing: set<string>)
    requires 1 <= i <= |args|
    ensures Dispatch(args, i, disk, failing).code == (if Accepted(args, i) then 0 else 1)
    decreases |args| - i
  {
    if i < |args| && TakesName(Classify(args[i])) && i + 1 < |args| {
      ExitCode(args, i + 2, disk, failing);
    }
  }

  /** The exit code does not depend on the environment. */
  lemma ExitCodeIgnoresEnvironment(args: seq<string>, disk1: set<string>, failing1: set<string>, disk2: set<string>, failing2: set<string>)
    ensures Program(args, disk1, failing1).code == Program(args, disk2, failing2).code
    ensures Program(args, disk1, failing1).code in {0, 1}
  {
    if |args| >= 2 {
      ExitCode(args, 1, disk1, failing1);
      ExitCode(args, 1, disk2, failing2);
    }
  }

  /** An unknown option prints help and fails. */
  lemma UnknownFails(args: seq<string>, i: nat, disk: set<string>, failing: set<string>)
    requires 1 <= i < |args| && Classify(args[i]) == UnknownOpt
    ensures Dispatch(args, i, disk, failing) == Outcome(1, [UnknownOption(args[i]), Help])
  {
  }

  /** "ikun -c -v" checks a library called "-v"; "ikun -i maths -v -x"
      installs maths, shows the version and never looks at "-x". */
  lemma RunExamples()
    ensures Program(["ikun", "-c", "-v"], {}, {}) == Outcome(0, [Title, Checked("-v", false)])
    ensures Program(["ikun", "-i", "maths", "-v", "-x"], {}, {}) ==
      Outcome(0, [Title, InstallLib("maths", false), Version])
    ensures Program(["ikun", "-u"], {}, {}) == Outcome(1, [Title, MissingName(UninstallOpt)])
  {
    var a := ["ikun", "-c", "-v"];
    assert Classify(a[1]) == CheckOpt;
    assert "-v" !in PROTECTED;
    var b := ["ikun", "-i", "maths", "-v", "-x"];
    assert Classify(b[1]) == InstallOpt && Classify(b[3]) == VersionOpt;
    assert Classify(["ikun", "-u"][1]) == UninstallOpt;
  }
}
