/**
 * `Program.Main`, the older single-DLL entry point: choose the Unturned directory,
 * optionally install SteamCMD and update the game, stop unless a new build arrived
 * (or `--force` is given), then write the commit message, pretty-print the econ file,
 * reset the output directory and decompile `Assembly-CSharp`.
 *
 * The steps whose work lies outside this model (SteamCMD, the commit message with its
 * clock, the JSON re-indentation, the decompiler) are recorded in order as `Step`s.
 */
module Program {
  import opened Wrappers
  import opened Strings
  import opened Paths
  import opened BuildIdGate
  import opened DecompilerBoundary
  import SteamCMDWrapper
  import DownloadAndDecompileGame

  /** An effect of `Main` on the world outside the model. */
  datatype Step =
    | CreateDirectory(path: string)
    | InstallSteamCmd(path: string)
    | UpdateGame(path: string)
    | WriteCommit(buildId: string)
    | PrettyPrintEcon(path: string)
    | DecompileDll(outputPath: string)

  /** The only app this entry point reads the manifest of: the dedicated server. */
  const ServerAppId: string := "1110390"

  const OutputDirectory: string := "Assembly-CSharp"

  /** The Unturned directory: `args[0]` when it names an existing directory, else the current one. */
  function ChooseRoot(args: seq<string>, currentDirectory: string, directories: set<string>): (root: string)
    ensures |args| >= 1 && args[0] in directories ==> root == args[0]
    ensures !(|args| >= 1 && args[0] in directories) ==> root == currentDirectory
  {
    if |args| >= 1 && args[0] in directories then args[0] else currentDirectory
  }

  /**
   * An invalid `args[0]` is not an error by itself: `Main` gives up only when the current
   * directory is missing too.
   */
  lemma RootIsValidUnlessBothAreMissing(args: seq<string>, currentDirectory: string, directories: set<string>)
    ensures ChooseRoot(args, currentDirectory, directories) !in directories <==>
      currentDirectory !in directories && !(|args| >= 1 && args[0] in directories)
  {
  }

  /** The condition under which `Main` returns the update's exit code. */
  predicate UpdateFailed(exitCode: int, isWindows: bool)
  {
    exitCode != 0 && (!isWindows || exitCode != 7)
  }

  /**
   * `Main` and `SteamCMDWrapper.UpdateGameAsync` apply the same exit-code rule: `Main`
   * stops exactly when the wrapper would report an error, with the same code.
   */
  lemma UpdateFailedAgreesWithWrapper(exitCode: int, isWindows: bool)
    ensures UpdateFailed(exitCode, isWindows) <==> SteamCMDWrapper.NormalizeExitCode(exitCode, isWindows) != 0
    ensures UpdateFailed(exitCode, isWindows) ==> SteamCMDWrapper.NormalizeExitCode(exitCode, isWindows) == exitCode
  {
  }

  /** The `if` form of `IncludeTypeWhenDecompilingProject` in this file. */
  function IncludeType(t: TypeDefinition): (included: bool)
    ensures t.name == "<Module>" || t.hidden ==> !included
  {
    if t.name == "<Module>" || t.hidden then false
    else t.ns != "XamlGeneratedNamespace" || t.name != "GeneratedInternalTypeHelper"
  }

  /** Both copies of the type filter accept exactly the same types. */
  lemma IncludeTypeVariantsAgree(t: TypeDefinition)
    ensures IncludeType(t) == DownloadAndDecompileGame.IncludeType(t)
  {
  }

  /** The steps of the SteamCMD block for the Unturned directory `root`. */
  function SteamSteps(root: string, directories: set<string>): seq<Step>
  {
    var steamcmdPath := Combine(root, "SteamCMD");
    (if steamcmdPath in directories then [] else [CreateDirectory(steamcmdPath)])
      + [InstallSteamCmd(steamcmdPath), UpdateGame(root)]
  }

  /** The steps after the gate has let the run through. */
  function WorkSteps(root: string, buildId: Option<string>): seq<Step>
  {
    [WriteCommit(buildId.GetOr(DownloadAndDecompileGame.UnknownBuildId)),
     PrettyPrintEcon(Combine(root, "EconInfo.json")),
     DecompileDll(Combine(root, OutputDirectory))]
  }

  /**
   * What the part of `Main` after the update does, from the `.buildid` content `stored0`
   * and the directory tree `tree0` to `stored1` and `tree1`: a missing manifest throws
   * and changes nothing; otherwise the gate runs, and unless it reports no new build
   * without `--force`, the work steps follow and the output directory is reset.
   */
  ghost predicate Processed(root: string, force: bool, manifests: map<string, string>,
                            stored0: Option<string>, stored1: Option<string>,
                            tree0: DownloadAndDecompileGame.Tree, tree1: DownloadAndDecompileGame.Tree,
                            before: seq<Step>, r: Result<int, IoError>, steps: seq<Step>)
  {
    var manifest := ManifestFileName(ServerAppId);
    && (manifest !in manifests ==>
          r == Failure(FileNotFound(manifest)) && steps == before && stored1 == stored0 && tree1 == tree0)
    && (manifest in manifests ==>
          var d := Gate(stored0, manifests[manifest]);
          && stored1 == d.stored
          && r == Success(0)
          && (!d.check.isNewBuild && !force ==> steps == before && tree1 == tree0)
          && (d.check.isNewBuild || force ==>
                steps == before + WorkSteps(root, d.check.buildId)
                && tree1 == DownloadAndDecompileGame.Reset(tree0, OutputDirectory)))
  }

  /**
   * The part of `Main` after the update: the build-id gate, then the work. `root` is the
   * Unturned directory and `before` the steps already taken.
   */
  method CheckAndProcess(root: string, force: bool, manifests: map<string, string>, store: BuildIdFile,
                         game: DownloadAndDecompileGame.GameDirectory, before: seq<Step>)
    returns (r: Result<int, IoError>, steps: seq<Step>)
    modifies store, game
    ensures Processed(root, force, manifests, old(store.stored), store.stored,
                      old(game.Contents()), game.Contents(), before, r, steps)
  {
    steps := before;
    var check := store.CheckIsNewBuild(manifests, ServerAppId);
    if check.Failure? {
      return Failure(check.error), steps;
    }
    if !check.value.isNewBuild && !force {
      return Success(0), steps;
    }
    steps := steps + [WriteCommit(check.value.buildId.GetOr(DownloadAndDecompileGame.UnknownBuildId))];
    steps := steps + [PrettyPrintEcon(Combine(root, "EconInfo.json"))];
    game.ResetDirectory(OutputDirectory);
    steps := steps + [DecompileDll(Combine(root, OutputDirectory))];
    return Success(0), steps;
  }

  /**
   * `Main`. `directories` are the directories that exist, `updateExitCode` is what the
   * SteamCMD process exits with, `manifests` the parsed manifests in `steamapps`, `store`
   * the `.buildid` file and `game` the Unturned directory, whose `Assembly-CSharp`
   * output directory is reset. Returns the process exit code, or the exception that
   * escapes.
   */
  method MainFlow(args: seq<string>, currentDirectory: string, directories: set<string>, isWindows: bool,
                  updateExitCode: int, manifests: map<string, string>, store: BuildIdFile,
                  game: DownloadAndDecompileGame.GameDirectory) returns (r: Result<int, IoError>, steps: seq<Step>)
    modifies store, game
    ensures var root := ChooseRoot(args, currentDirectory, directories);
      root !in directories ==>
        r == Success(1) && steps == [] && store.stored == old(store.stored) && game.Contents() == old(game.Contents())
    ensures var root := ChooseRoot(args, currentDirectory, directories);
      root in directories && !HasFlag(args, "--nosteam") && UpdateFailed(updateExitCode, isWindows) ==>
        && r == Success(updateExitCode) && steps == SteamSteps(root, directories)
        && store.stored == old(store.stored) && game.Contents() == old(game.Contents())
    ensures var root := ChooseRoot(args, currentDirectory, directories);
      var before := if HasFlag(args, "--nosteam") then [] else SteamSteps(root, directories);
      root in directories && (HasFlag(args, "--nosteam") || !UpdateFailed(updateExitCode, isWindows)) ==>
        Processed(root, HasFlag(args, "--force"), manifests, old(store.stored), store.stored,
                  old(game.Contents()), game.Contents(), before, r, steps)
  {
    steps := [];
    var installSteamCmd := !HasFlag(args, "--nosteam");
    var force := HasFlag(args, "--force");

    var unturnedPath := currentDirectory;
    if |args| >= 1 && args[0] in directories {
      unturnedPath := args[0];
    }
    assert unturnedPath == ChooseRoot(args, currentDirectory, directories);
    if unturnedPath !in directories {
      return Success(1), steps;
    }
    ghost var before := if installSteamCmd then SteamSteps(unturnedPath, directories) else [];

    if installSteamCmd {
      var steamcmdPath := Combine(unturnedPath, "SteamCMD");
      if steamcmdPath !in directories {
        steps := steps + [CreateDirectory(steamcmdPath)];
      }
      steps := steps + [InstallSteamCmd(steamcmdPath), UpdateGame(unturnedPath)];
      assert steps == before;
      if updateExitCode != 0 && (!isWindows || updateExitCode != 7) {
        return Success(updateExitCode), steps;
      }
    }

    assert steps == before;
    r, steps := CheckAndProcess(unturnedPath, force, manifests, store, game, steps);
  }
}
