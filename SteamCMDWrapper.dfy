/**
 * `SteamCMDWrapper`: installs SteamCMD into its directory unless the executable is
 * already there, and turns the exit code of a game update into the code the program
 * reports. The download, the archive formats and the process are not part of this model:
 * the downloaded archive arrives as its list of zip entries, or as the files the tar
 * archive extracts to, and the exit code is a parameter.
 */
module SteamCMDWrapper {
  import opened Wrappers
  import opened Paths

  datatype Platform = Windows | Linux | OtherPlatform

  datatype InstallError = PlatformNotSupported

  /** A zip entry: its name inside the archive and its bytes. */
  datatype ZipEntry = ZipEntry(name: string, data: Bytes)

  const ExecutableStem: string := "steamcmd."

  function ExecutableExtension(isWindows: bool): string
  {
    if isWindows then "exe" else "sh"
  }

  /**
   * The exit-code rule of `UpdateGameAsync`: 0 is success, and so is 7 on Windows; any
   * other code is passed on unchanged.
   */
  function NormalizeExitCode(exitCode: int, isWindows: bool): (r: int)
    ensures r == 0 || r == exitCode
    ensures r == 0 <==> exitCode == 0 || (isWindows && exitCode == 7)
  {
    if exitCode != 0 && (!isWindows || exitCode != 7) then exitCode else 0
  }

  /** On other platforms 7 is an error like any other. */
  lemma SevenIsSuccessOnlyOnWindows(isWindows: bool)
    ensures NormalizeExitCode(7, isWindows) == if isWindows then 0 else 7
  {
  }

  /**
   * The path the cached check looks at, `Combine(m_Path, "steamcmd.") + extension`, is the
   * path a fresh install records, `Combine(m_Path, "steamcmd." + extension)`.
   */
  lemma CachedPathIsInstalledPath(directory: string, extension: string)
    ensures Combine(directory, ExecutableStem) + extension == Combine(directory, ExecutableStem + extension)
  {
    var b := ExecutableStem + extension;
    assert b[0] == 's';
    if |directory| == 0 {
    } else if directory[|directory| - 1] == Separator {
      assert directory + ExecutableStem + extension == directory + b;
    } else {
      assert directory + [Separator] + ExecutableStem + extension == directory + [Separator] + b;
    }
  }

  /**
   * The files after extracting `entries` in order under `root`: each entry is written to
   * `Combine(root, name)`, replacing an earlier file there, unless that path has an empty
   * file name (a directory entry).
   */
  function ExtractZip(root: string, files: map<string, Bytes>, entries: seq<ZipEntry>): map<string, Bytes>
  {
    if |entries| == 0 then files
    else
      var extracted := ExtractZip(root, files, entries[..|entries| - 1]);
      var entry := entries[|entries| - 1];
      var path := Combine(root, entry.name);
      if |GetFileName(path)| == 0 then extracted else extracted[path := entry.data]
  }

  /** Some entry of `entries` is written to `path`. */
  ghost predicate Written(root: string, entries: seq<ZipEntry>, path: string)
  {
    |GetFileName(path)| > 0 && exists i :: 0 <= i < |entries| && Combine(root, entries[i].name) == path
  }

  lemma WrittenSnoc(root: string, entries: seq<ZipEntry>, path: string)
    requires |entries| > 0
    ensures Written(root, entries, path) <==>
      Written(root, entries[..|entries| - 1], path)
      || (|GetFileName(path)| > 0 && Combine(root, entries[|entries| - 1].name) == path)
  {
    var init := entries[..|entries| - 1];
    if Written(root, entries, path) {
      var i :| 0 <= i < |entries| && Combine(root, entries[i].name) == path;
      if i < |entries| - 1 {
        assert init[i] == entries[i];
      }
    }
    if Written(root, init, path) {
      var i :| 0 <= i < |init| && Combine(root, init[i].name) == path;
      assert entries[i] == init[i];
    }
  }

  /**
   * Extraction adds exactly the paths of the entries with a non-empty file name and
   * keeps every other file as it was.
   */
  lemma {:induction false} ExtractZipContents(root: string, files: map<string, Bytes>, entries: seq<ZipEntry>)
    ensures forall p :: p in ExtractZip(root, files, entries) <==> p in files || Written(root, entries, p)
    ensures forall p :: p in files && !Written(root, entries, p) ==> ExtractZip(root, files, entries)[p] == files[p]
  {
    if |entries| > 0 {
      ExtractZipContents(root, files, entries[..|entries| - 1]);
      forall p ensures Written(root, entries, p) <==>
        Written(root, entries[..|entries| - 1], p)
        || (|GetFileName(p)| > 0 && Combine(root, entries[|entries| - 1].name) == p)
      {
        WrittenSnoc(root, entries, p);
      }
    }
  }

  /** A file holds the data of the last entry written to its path. */
  lemma {:induction false} LastEntryWins(root: string, files: map<string, Bytes>, entries: seq<ZipEntry>, i: nat)
    requires i < |entries| && |GetFileName(Combine(root, entries[i].name))| > 0
    requires forall j :: i < j < |entries| ==> Combine(root, entries[j].name) != Combine(root, entries[i].name)
    ensures Combine(root, entries[i].name) in ExtractZip(root, files, entries)
    ensures ExtractZip(root, files, entries)[Combine(root, entries[i].name)] == entries[i].data
  {
    var init := entries[..|entries| - 1];
    if i < |entries| - 1 {
      assert init[i] == entries[i];
      forall j | i < j < |init| ensures Combine(root, init[j].name) != Combine(root, init[i].name) {
        assert init[j] == entries[j];
      }
      LastEntryWins(root, files, init, i);
    }
  }

  class SteamCmd {
    /** `m_Path`, the SteamCMD directory. */
    const directory: string
    /** `SteamCMDPath`: null until an install has run. */
    var steamCmdPath: Option<string>
    /** The files below the SteamCMD directory, keyed by full path. */
    var files: map<string, Bytes>

    constructor (directory: string, files: map<string, Bytes>)
      ensures this.directory == directory && this.files == files && steamCmdPath == None
    {
      this.directory := directory;
      this.files := files;
      steamCmdPath := None;
    }

    /** The zip loop of `InstallAsync`. */
    method ExtractZipEntries(entries: seq<ZipEntry>)
      modifies this
      ensures files == ExtractZip(directory, old(files), entries)
      ensures steamCmdPath == old(steamCmdPath)
    {
      ghost var start := files;
      for k := 0 to |entries|
        invariant files == ExtractZip(directory, start, entries[..k])
        invariant steamCmdPath == old(steamCmdPath)
      {
        assert entries[..k + 1][..k] == entries[..k];
        var entry := entries[k];
        var fullZipToPath := Combine(directory, entry.name);
        if |GetFileName(fullZipToPath)| == 0 {
          continue;
        }
        files := files[fullZipToPath := entry.data];
      }
      assert entries[..|entries|] == entries;
    }

    /**
     * `InstallAsync` on `platform`. `directoryExists` is whether the SteamCMD directory
     * exists; `zipEntries` is the Windows download, `tarFiles` what the Linux download
     * extracts to.
     */
    method InstallAsync(platform: Platform, directoryExists: bool, zipEntries: seq<ZipEntry>,
                        tarFiles: map<string, Bytes>) returns (r: Result<(), InstallError>)
      modifies this
      ensures var cached := Combine(directory, ExecutableStem) + ExecutableExtension(platform == Windows);
        directoryExists && cached in old(files) ==>
          r.Success? && steamCmdPath == Some(cached) && files == old(files)
      ensures var cached := Combine(directory, ExecutableStem) + ExecutableExtension(platform == Windows);
        !(directoryExists && cached in old(files)) && platform == OtherPlatform ==>
          r == Failure(PlatformNotSupported) && steamCmdPath == old(steamCmdPath) && files == old(files)
      ensures var cached := Combine(directory, ExecutableStem) + ExecutableExtension(platform == Windows);
        !(directoryExists && cached in old(files)) && platform != OtherPlatform ==>
          && r.Success?
          && steamCmdPath == Some(Combine(directory, ExecutableStem + ExecutableExtension(platform == Windows)))
          && files == if platform == Windows then ExtractZip(directory, old(files), zipEntries) else old(files) + tarFiles
    {
      var isWindows := platform == Windows;
      var path := Combine(directory, ExecutableStem) + ExecutableExtension(isWindows);
      if directoryExists && path in files {
        steamCmdPath := Some(path);
        return Success(());
      }
      if !isWindows && platform != Linux {
        return Failure(PlatformNotSupported);
      }
      if isWindows {
        ExtractZipEntries(zipEntries);
      } else {
        files := files + tarFiles;
      }
      steamCmdPath := Some(Combine(directory, ExecutableStem + ExecutableExtension(isWindows)));
      return Success(());
    }

    /** `UpdateGameAsync`, given the exit code of the SteamCMD process. */
    method UpdateGameAsync(exitCode: int, isWindows: bool) returns (r: int)
      ensures r == NormalizeExitCode(exitCode, isWindows)
    {
      if exitCode != 0 && (!isWindows || exitCode != 7) {
        return exitCode;
      }
      return 0;
    }
  }

  /** A fresh install records an executable named `steamcmd.exe` or `steamcmd.sh`. */
  lemma InstalledExecutableName(directory: string, isWindows: bool)
    ensures GetFileName(Combine(directory, ExecutableStem + ExecutableExtension(isWindows)))
         == ExecutableStem + ExecutableExtension(isWindows)
  {
    var name := ExecutableStem + ExecutableExtension(isWindows);
    assert Separator !in name;
    FileNameOfCombine(directory, name);
  }
}
