/**
 * The build-id change gate shared by `DownloadAndDecompileGame.CheckIsNewBuild` and the
 * older `Program.CheckIsNewBuild`: the app manifest `steamapps/appmanifest_<id>.acf`
 * must exist, its build id is compared with the one persisted in `.buildid`, and the
 * file is overwritten whenever they differ.
 */
module BuildIdGate {
  import opened Wrappers

  /** `(bool isNewBuild, string? buildId)`. */
  datatype Check = Check(isNewBuild: bool, buildId: Option<string>)

  /** The exceptions the modelled file operations raise. */
  datatype IoError = FileNotFound(fileName: string) | EndOfStream

  /** The outcome of one comparison: what is returned and what `.buildid` then holds. */
  datatype Decision = Decision(check: Check, stored: Option<string>)

  /**
   * Compare-and-store on the content of `.buildid` (`None` when the file does not exist)
   * and the manifest's build id.
   */
  function Gate(stored: Option<string>, manifestBuildId: string): (d: Decision)
    ensures d.stored == Some(manifestBuildId)
    ensures d.check.isNewBuild <==> stored != Some(manifestBuildId)
    ensures d.check.buildId == if d.check.isNewBuild then Some(manifestBuildId) else None
  {
    match stored
    case None => Decision(Check(true, Some(manifestBuildId)), Some(manifestBuildId))
    case Some(current) =>
      if current != manifestBuildId then Decision(Check(true, Some(manifestBuildId)), Some(manifestBuildId))
      else Decision(Check(false, None), stored)
  }

  /** The comparison leaves `.buildid` unchanged exactly when it reports no new build. */
  lemma GateWritesOnlyWhenNew(stored: Option<string>, manifestBuildId: string)
    ensures Gate(stored, manifestBuildId).stored == stored <==> !Gate(stored, manifestBuildId).check.isNewBuild
  {
  }

  /** Right after a comparison, a second one with the same manifest reports no new build. */
  lemma SecondCheckIsNotNew(stored: Option<string>, manifestBuildId: string)
    ensures Gate(Gate(stored, manifestBuildId).stored, manifestBuildId).check == Check(false, None)
  {
  }

  /** `appmanifest_<appId>.acf`. */
  function ManifestFileName(appId: string): string
  {
    "appmanifest_" + appId + ".acf"
  }

  /** Different app ids name different manifest files. */
  lemma ManifestFileNameIsInjective(a: string, b: string)
    ensures ManifestFileName(a) == ManifestFileName(b) ==> a == b
  {
    if ManifestFileName(a) == ManifestFileName(b) {
      assert a == ManifestFileName(a)[12..|ManifestFileName(a)| - 4];
      assert b == ManifestFileName(b)[12..|ManifestFileName(b)| - 4];
    }
  }

  /** The `.buildid` file, which the gate reads and overwrites. */
  class BuildIdFile {
    var stored: Option<string>

    constructor (stored: Option<string>)
      ensures this.stored == stored
    {
      this.stored := stored;
    }

    /**
     * `CheckIsNewBuild` for the app `appId`. `manifests` maps the names of the manifest
     * files present in `steamapps` to the build id their `buildid` entry holds.
     * A missing manifest throws before `.buildid` is read or written.
     */
    method CheckIsNewBuild(manifests: map<string, string>, appId: string) returns (r: Result<Check, IoError>)
      modifies this
      ensures ManifestFileName(appId) !in manifests ==>
        r == Failure(FileNotFound(ManifestFileName(appId))) && stored == old(stored)
      ensures ManifestFileName(appId) in manifests ==>
        var d := Gate(old(stored), manifests[ManifestFileName(appId)]);
        r == Success(d.check) && stored == d.stored
    {
      var manifest := ManifestFileName(appId);
      if manifest !in manifests {
        return Failure(FileNotFound(manifest));
      }
      var buildId := manifests[manifest];
      if stored.None? {
        stored := Some(buildId);
        return Success(Check(true, Some(buildId)));
      }
      if stored.value != buildId {
        stored := Some(buildId);
        return Success(Check(true, Some(buildId)));
      }
      return Success(Check(false, None));
    }
  }
}
