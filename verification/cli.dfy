/** The command-line front end (`cli.py`): which configuration files the
    `gui` subcommand loads, and how `main`/`_main` order their steps and
    turn exceptions into an exit code. */
module Cli {
  import opened Results
  import Gui

  // ---------------------------------------------------------------------
  // Configuration list of the `gui` subcommand
  // ---------------------------------------------------------------------

  /** The boolean switches of the `gui` subcommand. */
  datatype GuiFlags = GuiFlags(
    tst: bool, allProd: bool, lfeAll: bool, lfe: bool,
    kfeAll: bool, kfe: bool, tmo: bool, rix: bool)

  const NoFlags := GuiFlags(false, false, false, false, false, false, false, false)

  /** The packaged configurations, declared in the order they are
      appended. */
  datatype Site = Tst | Lfe | Kfe | Tmo | Rix

  function SiteName(site: Site): string {
    match site
    case Tst => "tst"
    case Lfe => "lfe"
    case Kfe => "kfe"
    case Tmo => "tmo"
    case Rix => "rix"
  }

  /** Position of a packaged configuration in the appending order. */
  function Rank(site: Site): nat {
    match site
    case Tst => 0
    case Lfe => 1
    case Kfe => 2
    case Tmo => 3
    case Rix => 4
  }

  /** `get_included_config`: the packaged file `pmpsdb_<name>.yml` next to
      the module, in the package directory `packageDir`. */
  function IncludedConfig(packageDir: string, name: string): (path: string)
    ensures |path| == |packageDir| + |name| + 12
    ensures path[..|packageDir|] == packageDir
    ensures path[|packageDir|..|packageDir| + 8] == "/pmpsdb_"
    ensures path[|path| - 4..] == ".yml"
    ensures path[|packageDir| + 8..|path| - 4] == name
  {
    packageDir + "/pmpsdb_" + name + ".yml"
  }

  /** Different names give different files. */
  lemma IncludedConfigInjective(packageDir: string, a: string, b: string)
    requires IncludedConfig(packageDir, a) == IncludedConfig(packageDir, b)
    ensures a == b
  {
    var pa := IncludedConfig(packageDir, a);
    assert |a| == |b|;
    assert a == pa[|packageDir| + 8..|packageDir| + 8 + |a|];
    assert b == IncludedConfig(packageDir, b)[|packageDir| + 8..|packageDir| + 8 + |b|];
  }

  /** The packaged configurations the switches select, in appending order. */
  function Selected(f: GuiFlags): seq<Site> {
    Pick(f.tst, Tst)
    + Pick(f.lfe || f.lfeAll || f.allProd, Lfe)
    + Pick(f.kfe || f.tmo || f.rix || f.kfeAll || f.allProd, Kfe)
    + Pick(f.tmo || f.kfeAll || f.allProd, Tmo)
    + Pick(f.rix || f.kfeAll || f.allProd, Rix)
  }

  /** One `if` of `gui()`: `site` when its switch is on, nothing otherwise. */
  function Pick(on: bool, site: Site): (r: seq<Site>)
    ensures site in r <==> on
    ensures r == [] || r == [site]
  {
    if on then [site] else []
  }

  function Paths(packageDir: string, sites: seq<Site>): (paths: seq<string>)
    ensures |paths| == |sites|
    ensures forall i :: 0 <= i < |sites| ==> paths[i] == IncludedConfig(packageDir, SiteName(sites[i]))
  {
    if sites == [] then [] else [IncludedConfig(packageDir, SiteName(sites[0]))] + Paths(packageDir, sites[1..])
  }

  /** The `configs` list `gui()` hands to the window: the `--config` files
      in the order given, then the packaged files the switches select. */
  function ConfigList(f: GuiFlags, userConfigs: seq<string>, packageDir: string): (configs: seq<string>)
    ensures |configs| == |userConfigs| + |Selected(f)|
    ensures configs[..|userConfigs|] == userConfigs
    ensures forall i :: 0 <= i < |Selected(f)| ==>
              configs[|userConfigs| + i] == IncludedConfig(packageDir, SiteName(Selected(f)[i]))
  {
    userConfigs + Paths(packageDir, Selected(f))
  }

  /** `s` holds configurations in strictly increasing order, all before
      position `bound`. */
  predicate RankedBelow(s: seq<Site>, bound: nat) {
    && (forall i :: 0 <= i < |s| ==> Rank(s[i]) < bound)
    && (forall i, j :: 0 <= i < j < |s| ==> Rank(s[i]) < Rank(s[j]))
  }

  lemma Push(s: seq<Site>, piece: seq<Site>, site: Site)
    requires RankedBelow(s, Rank(site))
    requires piece == [] || piece == [site]
    ensures RankedBelow(s + piece, Rank(site) + 1)
  {
  }

  /** The packaged configurations come in the fixed order tst, lfe, kfe,
      tmo, rix, so none is loaded twice. */
  lemma SelectedInOrder(f: GuiFlags)
    ensures forall i, j :: 0 <= i < j < |Selected(f)| ==> Rank(Selected(f)[i]) < Rank(Selected(f)[j])
    ensures forall i, j :: 0 <= i < j < |Selected(f)| ==> Selected(f)[i] != Selected(f)[j]
  {
    var a := Pick(f.tst, Tst);
    var b := Pick(f.lfe || f.lfeAll || f.allProd, Lfe);
    var c := Pick(f.kfe || f.tmo || f.rix || f.kfeAll || f.allProd, Kfe);
    var d := Pick(f.tmo || f.kfeAll || f.allProd, Tmo);
    var e := Pick(f.rix || f.kfeAll || f.allProd, Rix);
    assert Selected(f) == a + b + c + d + e;
    RankedPieces(a, b, c, d, e);
  }

  /** Pieces holding at most tst, lfe, kfe, tmo and rix respectively join
      into a strictly increasing sequence. */
  lemma RankedPieces(a: seq<Site>, b: seq<Site>, c: seq<Site>, d: seq<Site>, e: seq<Site>)
    requires a == [] || a == [Tst]
    requires b == [] || b == [Lfe]
    requires c == [] || c == [Kfe]
    requires d == [] || d == [Tmo]
    requires e == [] || e == [Rix]
    ensures RankedBelow(a + b + c + d + e, 5)
  {
    Push([], a, Tst);
    Push(a, b, Lfe);
    Push(a + b, c, Kfe);
    Push(a + b + c, d, Tmo);
    Push(a + b + c + d, e, Rix);
  }

  /** Which packaged configuration each switch brings in; a hutch always
      brings its front end. */
  lemma SelectedMembership(f: GuiFlags)
    ensures Tst in Selected(f) <==> f.tst
    ensures Lfe in Selected(f) <==> f.lfe || f.lfeAll || f.allProd
    ensures Kfe in Selected(f) <==> f.kfe || f.tmo || f.rix || f.kfeAll || f.allProd
    ensures Tmo in Selected(f) <==> f.tmo || f.kfeAll || f.allProd
    ensures Rix in Selected(f) <==> f.rix || f.kfeAll || f.allProd
    ensures (Tmo in Selected(f) || Rix in Selected(f)) ==> Kfe in Selected(f)
  {
    var a := Pick(f.tst, Tst);
    var b := Pick(f.lfe || f.lfeAll || f.allProd, Lfe);
    var c := Pick(f.kfe || f.tmo || f.rix || f.kfeAll || f.allProd, Kfe);
    var d := Pick(f.tmo || f.kfeAll || f.allProd, Tmo);
    var e := Pick(f.rix || f.kfeAll || f.allProd, Rix);
    assert Selected(f) == a + b + c + d + e;
  }

  /** `--tmo` alone loads the kfe then the tmo file, `--rix` alone the kfe
      then the rix file, `--lfe-all` alone only the lfe file, `--kfe-all`
      alone the kfe, tmo and rix files. */
  lemma SingleSwitches(packageDir: string)
    ensures ConfigList(NoFlags.(tmo := true), [], packageDir)
            == [IncludedConfig(packageDir, "kfe"), IncludedConfig(packageDir, "tmo")]
    ensures ConfigList(NoFlags.(rix := true), [], packageDir)
            == [IncludedConfig(packageDir, "kfe"), IncludedConfig(packageDir, "rix")]
    ensures ConfigList(NoFlags.(lfeAll := true), [], packageDir) == [IncludedConfig(packageDir, "lfe")]
    ensures ConfigList(NoFlags.(kfeAll := true), [], packageDir)
            == [IncludedConfig(packageDir, "kfe"), IncludedConfig(packageDir, "tmo"), IncludedConfig(packageDir, "rix")]
  {
    TmoAlone(packageDir);
    RixAlone(packageDir);
    LfeAllAlone(packageDir);
    KfeAllAlone(packageDir);
  }

  lemma TmoAlone(packageDir: string)
    ensures ConfigList(NoFlags.(tmo := true), [], packageDir)
            == [IncludedConfig(packageDir, "kfe"), IncludedConfig(packageDir, "tmo")]
  {
    SwitchAlone(packageDir, NoFlags.(tmo := true), [Kfe, Tmo]);
  }

  lemma RixAlone(packageDir: string)
    ensures ConfigList(NoFlags.(rix := true), [], packageDir)
            == [IncludedConfig(packageDir, "kfe"), IncludedConfig(packageDir, "rix")]
  {
    SwitchAlone(packageDir, NoFlags.(rix := true), [Kfe, Rix]);
  }

  lemma LfeAllAlone(packageDir: string)
    ensures ConfigList(NoFlags.(lfeAll := true), [], packageDir) == [IncludedConfig(packageDir, "lfe")]
  {
    SwitchAlone(packageDir, NoFlags.(lfeAll := true), [Lfe]);
  }

  lemma KfeAllAlone(packageDir: string)
    ensures ConfigList(NoFlags.(kfeAll := true), [], packageDir)
            == [IncludedConfig(packageDir, "kfe"), IncludedConfig(packageDir, "tmo"), IncludedConfig(packageDir, "rix")]
  {
    SwitchAlone(packageDir, NoFlags.(kfeAll := true), [Kfe, Tmo, Rix]);
  }

  /** With no `--config`, the list is exactly the files of the selected
      configurations. */
  lemma SwitchAlone(packageDir: string, f: GuiFlags, sites: seq<Site>)
    requires Selected(f) == sites
    ensures ConfigList(f, [], packageDir) == Paths(packageDir, sites)
  {
    assert [] + Paths(packageDir, sites) == Paths(packageDir, sites);
  }

  /** `--all-prod` without `--tst` loads every production file and not the
      test file. */
  lemma AllProduction(f: GuiFlags, userConfigs: seq<string>, packageDir: string)
    requires f.allProd && !f.tst
    ensures Selected(f) == [Lfe, Kfe, Tmo, Rix]
    ensures IncludedConfig(packageDir, "tst") !in ConfigList(f, userConfigs, packageDir)[|userConfigs|..]
  {
    var sites := Selected(f);
    assert ConfigList(f, userConfigs, packageDir)[|userConfigs|..] == Paths(packageDir, sites);
    OnlySelectedPaths(packageDir, sites, Tst);
  }

  /** A site's file is among the paths only if the site was selected. */
  lemma OnlySelectedPaths(packageDir: string, sites: seq<Site>, site: Site)
    requires site !in sites
    ensures IncludedConfig(packageDir, SiteName(site)) !in Paths(packageDir, sites)
  {
    var paths := Paths(packageDir, sites);
    forall i | 0 <= i < |paths|
      ensures paths[i] != IncludedConfig(packageDir, SiteName(site))
    {
      SiteFilesDiffer(packageDir, sites[i], site);
    }
  }

  /** Different packaged configurations live in different files. */
  lemma SiteFilesDiffer(packageDir: string, a: Site, b: Site)
    requires a != b
    ensures IncludedConfig(packageDir, SiteName(a)) != IncludedConfig(packageDir, SiteName(b))
  {
    assert SiteName(a)[0] != SiteName(b)[0] || SiteName(a)[1] != SiteName(b)[1];
    if IncludedConfig(packageDir, SiteName(a)) == IncludedConfig(packageDir, SiteName(b)) {
      IncludedConfigInjective(packageDir, SiteName(a), SiteName(b));
    }
  }

  /** With no switch and no `--config`, the window falls back to the test
      configuration, the same file `--tst` loads. */
  lemma DefaultIsTest(packageDir: string)
    ensures ConfigList(NoFlags, [], packageDir) == []
    ensures Gui.EffectiveConfigs(ConfigList(NoFlags, [], packageDir), packageDir)
            == ConfigList(NoFlags.(tst := true), [], packageDir)
  {
    assert packageDir + "/pmpsdb_" + "tst" + ".yml" == packageDir + "/pmpsdb_tst.yml";
  }

  // ---------------------------------------------------------------------
  // main / _main
  // ---------------------------------------------------------------------

  datatype Subcommand = GuiCommand | PlcCommand

  /** The parsed command line as `_main` reads it. */
  datatype Args = Args(version: bool, verbose: bool, exportDir: Option<string>, subcommand: Option<Subcommand>)

  datatype LogLevel = Debug | Info

  /** The visible steps of a run, in order. */
  datatype Step =
    | ShowVersion
    | ConfigureLogging(level: LogLevel)
    | SetExportDir(dir: string)
    | StartGui
    | StartPlc
    | ShowError(message: string)

  /** An exception raised by a collaborator: its `str()`, and whether its
      class derives from `Exception` (`KeyboardInterrupt` and `SystemExit`
      derive only from `BaseException`). */
  datatype Failure = Failure(message: string, isException: bool)

  /** How the program ends: with an exit code (`None` for a bare
      `return`) or with an exception propagating out of `main`. */
  datatype Exit = Returned(code: Option<int>) | Raised(failure: Failure)

  datatype Outcome = Outcome(steps: seq<Step>, exit: Exit)

  /** What the collaborators do, left abstract: whether setting the export
      directory raises, and how each subcommand ends. */
  datatype Environment = Environment(
    exportDir: Result<(), Failure>,
    gui: Result<int, Failure>,
    plc: Result<(), Failure>)

  /** Every failure the collaborators could raise is an `Exception`. */
  predicate ExceptionsOnly(env: Environment) {
    && (env.exportDir.Err? ==> env.exportDir.error.isException)
    && (env.gui.Err? ==> env.gui.error.isException)
    && (env.plc.Err? ==> env.plc.error.isException)
  }

  /** The run ended with an exception that `except Exception` catches. */
  predicate CaughtByMain(exit: Exit) {
    exit.Raised? && exit.failure.isException
  }

  /** `_main`. */
  function InnerMain(args: Args, env: Environment): (r: Outcome)
    ensures args.version ==> r == Outcome([ShowVersion], Returned(None))
    ensures !args.version ==> |r.steps| >= 1 && r.steps[0] == ConfigureLogging(if args.verbose then Debug else Info)
    ensures r.exit.Returned? && r.exit.code.Some? ==> !args.version && args.subcommand == Some(GuiCommand)
    ensures r.exit.Raised? ==> || (env.exportDir.Err? && r.exit.failure == env.exportDir.error)
                               || (env.gui.Err? && r.exit.failure == env.gui.error)
                               || (env.plc.Err? && r.exit.failure == env.plc.error)
  {
    if args.version then Outcome([ShowVersion], Returned(None))
    else
      var logging := [ConfigureLogging(if args.verbose then Debug else Info)];
      var exported := if args.exportDir.Some? && args.exportDir.value != "" then [SetExportDir(args.exportDir.value)] else [];
      if exported != [] && env.exportDir.Err? then Outcome(logging + exported, Raised(env.exportDir.error))
      else
        match args.subcommand
        case None => Outcome(logging + exported, Returned(None))
        case Some(GuiCommand) =>
          Outcome(logging + exported + [StartGui],
                  if env.gui.Ok? then Returned(Some(env.gui.value)) else Raised(env.gui.error))
        case Some(PlcCommand) =>
          Outcome(logging + exported + [StartPlc],
                  if env.plc.Ok? then Returned(None) else Raised(env.plc.error))
  }

  /** `main`: an `Exception` out of `_main` is shown and turned into exit
      code 1, unless `--verbose` asks for it to propagate. Anything else
      (`KeyboardInterrupt`, `SystemExit`) is not caught. */
  function Main(args: Args, env: Environment): (r: Outcome)
    ensures !args.verbose ==> (r.exit.Returned? <==> !InnerMain(args, env).exit.Raised? || CaughtByMain(InnerMain(args, env).exit))
    ensures CaughtByMain(InnerMain(args, env).exit) && !args.verbose ==>
              r.exit == Returned(Some(1))
              && r.steps == InnerMain(args, env).steps + [ShowError(InnerMain(args, env).exit.failure.message)]
    ensures InnerMain(args, env).exit.Raised? && args.verbose ==> r == InnerMain(args, env)
    ensures InnerMain(args, env).exit.Raised? && !CaughtByMain(InnerMain(args, env).exit) ==> r == InnerMain(args, env)
    ensures InnerMain(args, env).exit.Returned? ==> r == InnerMain(args, env)
  {
    var inner := InnerMain(args, env);
    if CaughtByMain(inner.exit) && !args.verbose then
      Outcome(inner.steps + [ShowError(inner.exit.failure.message)], Returned(Some(1)))
    else inner
  }

  /** `--version` prints the version and returns before logging is set
      up, the export directory is touched or any subcommand runs, whatever
      the other options say and whatever the collaborators would do. */
  lemma VersionShortCircuits(args: Args, env: Environment)
    requires args.version
    ensures Main(args, env) == Outcome([ShowVersion], Returned(None))
    ensures forall i :: 0 <= i < |Main(args, env).steps| ==>
              !Main(args, env).steps[i].ConfigureLogging? && !Main(args, env).steps[i].StartGui?
              && !Main(args, env).steps[i].StartPlc? && !Main(args, env).steps[i].SetExportDir?
  {
  }

  /** A `KeyboardInterrupt` in the GUI passes through `main` unchanged,
      even without `--verbose`, after the GUI was started. */
  lemma InterruptEscapes(args: Args, env: Environment)
    requires !args.version && !args.verbose && args.subcommand == Some(GuiCommand)
    requires args.exportDir.None? || env.exportDir.Ok?
    requires env.gui.Err? && !env.gui.error.isException
    ensures Main(args, env).exit == Raised(env.gui.error)
    ensures StartGui in Main(args, env).steps
    ensures forall i :: 0 <= i < |Main(args, env).steps| ==> !Main(args, env).steps[i].ShowError?
  {
  }

  /** Without `--verbose` the program ends with a code unless a
      `KeyboardInterrupt` or `SystemExit` escapes, so always when the
      collaborators raise only `Exception`s; the code is 1 exactly when a
      step raised an `Exception` or the GUI itself returned 1. */
  lemma QuietExitCode(args: Args, env: Environment)
    requires !args.verbose
    ensures Main(args, env).exit.Returned? <==>
              !(InnerMain(args, env).exit.Raised? && !InnerMain(args, env).exit.failure.isException)
    ensures ExceptionsOnly(env) ==> Main(args, env).exit.Returned?
    ensures Main(args, env).exit == Returned(Some(1)) <==>
              CaughtByMain(InnerMain(args, env).exit)
              || (args.subcommand == Some(GuiCommand) && InnerMain(args, env).exit == Returned(Some(1)))
  {
  }
}
