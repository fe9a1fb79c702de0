/**
 * The scenario `DownloadAndDecompileGame`: the build-id gate and the `--force` / `--client`
 * flags of `StartAsync`, the Unity version read from `globalgamemanagers`, the reset of
 * the per-DLL output directories, and the type filter and grouping key used when
 * decompiling.
 *
 * Paths are relative to the Unturned directory. The decompilation itself, the KeyValues
 * manifest parser and the JSON re-serialisation are not part of this model: the manifests
 * arrive already parsed and the re-serialised JSON text is a parameter.
 */
module DownloadAndDecompileGame {
  import opened Wrappers
  import opened Strings
  import opened Paths
  import opened BuildIdGate
  import opened DecompilerBoundary
  import EconInfoHelper

  /** The DLLs to decompile, in the order the set enumerates them. */
  const DecompileDllNames: seq<string> := [
    "Assembly-CSharp",
    "SDG.HostBans.Runtime",
    "SDG.NetPak.Runtime",
    "SDG.NetTransport",
    "Unturned.LiveConfig.Runtime",
    "UnityEx",
    "SystemEx",
    "UnturnedDat"
  ]

  const UnknownBuildId: string := "???"

  /** The Steam app whose manifest is read: the dedicated server or the client. */
  function AppId(isDedicatedServer: bool): string
  {
    if isDedicatedServer then "1110390" else "304930"
  }

  // ---------------------------------------------------------------------------
  // Output directory names

  /** `name.Replace('.', '-')`. */
  function Normalize(name: string): (r: string)
    ensures |r| == |name|
    ensures '.' !in r
    ensures forall i :: 0 <= i < |name| ==> r[i] == if name[i] == '.' then '-' else name[i]
  {
    if |name| == 0 then ""
    else [if name[0] == '.' then '-' else name[0]] + Normalize(name[1..])
  }

  /** The output directory of each DLL, in loop order. */
  function OutputDirectories(names: seq<string>): (dirs: seq<string>)
    ensures |dirs| == |names|
    ensures forall i :: 0 <= i < |names| ==> dirs[i] == Normalize(names[i])
  {
    if |names| == 0 then []
    else OutputDirectories(names[..|names| - 1]) + [Normalize(names[|names| - 1])]
  }

  lemma NormalizeIsIdempotent(name: string)
    ensures Normalize(Normalize(name)) == Normalize(name)
  {
  }

  /** Normalizing introduces no character other than `-`. */
  lemma NormalizeAddsOnlyDashes(name: string, c: char)
    requires c != '-' && c !in name
    ensures c !in Normalize(name)
  {
  }

  lemma DllNamesHaveDistinctLengths()
    ensures |DecompileDllNames| == 8
    ensures forall i :: 0 <= i < |DecompileDllNames| ==> Separator !in DecompileDllNames[i] && |DecompileDllNames[i]| > 0
    ensures forall i, j :: 0 <= i < j < |DecompileDllNames| ==> |DecompileDllNames[i]| != |DecompileDllNames[j]|
  {
  }

  /** Names of distinct lengths without a separator give distinct single-component directories. */
  lemma OutputDirectoriesAreDistinct(names: seq<string>)
    requires forall i :: 0 <= i < |names| ==> Separator !in names[i] && |names[i]| > 0
    requires forall i, j :: 0 <= i < j < |names| ==> |names[i]| != |names[j]|
    ensures var dirs := OutputDirectories(names);
      && (forall i :: 0 <= i < |dirs| ==> Separator !in dirs[i] && |dirs[i]| > 0)
      && (forall i, j :: 0 <= i < j < |dirs| ==> dirs[i] != dirs[j])
  {
    var dirs := OutputDirectories(names);
    forall i | 0 <= i < |dirs| ensures Separator !in dirs[i] {
      NormalizeAddsOnlyDashes(names[i], Separator);
    }
  }

  /** The eight output directories are distinct, non-empty single path components. */
  lemma DllOutputDirectoriesAreDistinct()
    ensures var dirs := OutputDirectories(DecompileDllNames);
      && |dirs| == 8
      && (forall i :: 0 <= i < |dirs| ==> Separator !in dirs[i] && |dirs[i]| > 0)
      && (forall i, j :: 0 <= i < j < |dirs| ==> dirs[i] != dirs[j])
  {
    DllNamesHaveDistinctLengths();
    OutputDirectoriesAreDistinct(DecompileDllNames);
  }

  // ---------------------------------------------------------------------------
  // The directory tree the scenario changes

  /** Directories and files (with their bytes) of the Unturned directory. */
  datatype Tree = Tree(directories: set<string>, files: map<string, Bytes>)

  /** `path` lies strictly inside the directory `dir`. */
  predicate Under(path: string, dir: string)
  {
    |path| > |dir| && path[..|dir|] == dir && path[|dir|] == Separator
  }

  /**
   * One iteration of the output loop: an existing directory is deleted with everything
   * under it, a missing one is created.
   */
  function Reset(t: Tree, dir: string): Tree
  {
    if dir in t.directories then
      Tree(set d | d in t.directories && d != dir && !Under(d, dir),
           map f | f in t.files && !Under(f, dir) :: t.files[f])
    else Tree(t.directories + {dir}, t.files)
  }

  function ResetAll(t: Tree, dirs: seq<string>): Tree
  {
    if |dirs| == 0 then t
    else Reset(ResetAll(t, dirs[..|dirs| - 1]), dirs[|dirs| - 1])
  }

  /** `path` is neither one of `dirs` nor inside one of them. */
  ghost predicate Untouched(path: string, dirs: seq<string>)
  {
    forall n :: n in dirs ==> path != n && !Under(path, n)
  }

  /** One iteration flips `dir`, empties it if it existed, and touches nothing outside it. */
  lemma ResetEffect(t: Tree, dir: string)
    ensures dir in Reset(t, dir).directories <==> dir !in t.directories
    ensures forall d :: d != dir && !Under(d, dir) ==> (d in Reset(t, dir).directories <==> d in t.directories)
    ensures forall f :: !Under(f, dir) ==> (f in Reset(t, dir).files <==> f in t.files)
    ensures forall f :: !Under(f, dir) && f in t.files ==> Reset(t, dir).files[f] == t.files[f]
    ensures dir in t.directories ==> forall f :: Under(f, dir) ==> f !in Reset(t, dir).files
    ensures Reset(t, dir).files.Keys <= t.files.Keys
  {
  }

  /**
   * For distinct single-component directories, the loop flips the existence of each
   * one, deletes what lay inside a directory that existed, and leaves everything else
   * as it was.
   */
  lemma {:induction false} ResetAllEffect(t: Tree, dirs: seq<string>)
    requires forall i :: 0 <= i < |dirs| ==> Separator !in dirs[i]
    requires forall i, j :: 0 <= i < j < |dirs| ==> dirs[i] != dirs[j]
    ensures forall n :: n in dirs ==> (n in ResetAll(t, dirs).directories <==> n !in t.directories)
    ensures forall d :: Untouched(d, dirs) ==> (d in ResetAll(t, dirs).directories <==> d in t.directories)
    ensures forall f :: Untouched(f, dirs) ==> (f in ResetAll(t, dirs).files <==> f in t.files)
    ensures forall f :: Untouched(f, dirs) && f in t.files ==> ResetAll(t, dirs).files[f] == t.files[f]
    ensures forall f, n :: n in dirs && n in t.directories && Under(f, n) ==> f !in ResetAll(t, dirs).files
    ensures ResetAll(t, dirs).files.Keys <= t.files.Keys
  {
    if |dirs| > 0 {
      var init := dirs[..|dirs| - 1];
      var last := dirs[|dirs| - 1];
      assert dirs == init + [last];
      ResetAllEffect(t, init);
      var mid := ResetAll(t, init);
      var r := ResetAll(t, dirs);
      assert r == Reset(mid, last);
      ResetEffect(mid, last);
      assert Untouched(last, init) by {
        forall n | n in init ensures last != n && !Under(last, n) {
          var i :| 0 <= i < |init| && init[i] == n;
          assert dirs[i] == n;
        }
      }
      forall n | n in init ensures n != last && !Under(n, last) {
        var i :| 0 <= i < |init| && init[i] == n;
        assert dirs[i] == n;
      }
      forall n | n in dirs ensures n in r.directories <==> n !in t.directories {
        if n != last {
          assert n in init;
        }
      }
      forall d | Untouched(d, dirs) ensures Untouched(d, init) && d != last && !Under(d, last) {
        assert last in dirs;
        forall n | n in init ensures d != n && !Under(d, n) {
          assert n in dirs;
        }
      }
      forall f, n | n in dirs && n in t.directories && Under(f, n) ensures f !in r.files {
        if n == last {
          assert last in mid.directories;
        } else {
          assert n in init;
        }
      }
    }
  }

  // ---------------------------------------------------------------------------
  // The Unity version

  /** A `BinaryReader` over the bytes of a file. */
  class BinaryReader {
    const data: Bytes
    var position: nat

    constructor (data: Bytes)
      ensures this.data == data && position == 0
    {
      this.data := data;
      position := 0;
    }

    /** What is left to read: nothing once the position is at or past the end. */
    function Remaining(): Bytes
      reads this
    {
      if position <= |data| then data[position..] else []
    }

    /** `Seek(offset, SeekOrigin.Begin)`: any non-negative offset, even past the end. */
    method Seek(offset: nat)
      modifies this
      ensures position == offset
    {
      position := offset;
    }

    /** `ReadByte`: the next byte, or `EndOfStreamException` at the end. */
    method ReadByte() returns (r: Result<Byte, IoError>)
      modifies this
      ensures old(Remaining()) == [] ==> r == Failure(EndOfStream) && position == old(position)
      ensures old(Remaining()) != [] ==>
        r == Success(old(Remaining())[0]) && Remaining() == old(Remaining())[1..]
    {
      if position < |data| {
        r := Success(data[position]);
        position := position + 1;
      } else {
        r := Failure(EndOfStream);
      }
    }
  }

  const BufferSize: nat := 32

  /**
   * What `ReadStringZeroTerm` makes of the remaining bytes `s` once it has read `i` of
   * them: the bytes before the first zero among the first 32, null if none of the 32
   * is zero, and `EndOfStreamException` if the bytes run out first.
   */
  function ZeroTerminatedFrom(s: Bytes, i: nat): Result<Option<Bytes>, IoError>
    decreases BufferSize - i
  {
    if i >= BufferSize then Success(None)
    else if i >= |s| then Failure(EndOfStream)
    else if s[i] == 0 then Success(Some(s[..i]))
    else ZeroTerminatedFrom(s, i + 1)
  }

  function ZeroTerminated(s: Bytes): Result<Option<Bytes>, IoError>
  {
    ZeroTerminatedFrom(s, 0)
  }

  lemma {:induction false} ZeroTerminatedFromMeaning(s: Bytes, i: nat)
    requires i <= BufferSize && i <= |s| && 0 !in s[..i]
    ensures ZeroTerminatedFrom(s, i).Success? && ZeroTerminatedFrom(s, i).value.Some? ==>
      var b := ZeroTerminatedFrom(s, i).value.value;
      |b| < BufferSize && |b| < |s| && b == s[..|b|] && s[|b|] == 0 && 0 !in b
    ensures ZeroTerminatedFrom(s, i) == Success(None) ==> BufferSize <= |s| && 0 !in s[..BufferSize]
    ensures ZeroTerminatedFrom(s, i).Failure? ==> ZeroTerminatedFrom(s, i) == Failure(EndOfStream) && |s| < BufferSize && 0 !in s
    decreases BufferSize - i
  {
    if i < BufferSize && i < |s| && s[i] != 0 {
      assert s[..i + 1] == s[..i] + [s[i]];
      ZeroTerminatedFromMeaning(s, i + 1);
    } else if i == |s| {
      assert s[..i] == s;
    }
  }

  /**
   * The result of `ReadStringZeroTerm`: a zero-free prefix shorter than 32 bytes that the
   * zero ends, null when the first 32 bytes hold no zero, end of stream when the bytes
   * run out before either.
   */
  lemma ZeroTerminatedMeaning(s: Bytes)
    ensures ZeroTerminated(s).Success? && ZeroTerminated(s).value.Some? ==>
      var b := ZeroTerminated(s).value.value;
      |b| < BufferSize && |b| < |s| && b == s[..|b|] && s[|b|] == 0 && 0 !in b
    ensures ZeroTerminated(s) == Success(None) ==> BufferSize <= |s| && 0 !in s[..BufferSize]
    ensures ZeroTerminated(s).Failure? ==> ZeroTerminated(s) == Failure(EndOfStream) && |s| < BufferSize && 0 !in s
  {
    ZeroTerminatedFromMeaning(s, 0);
  }

  /** `ReadStringZeroTerm`, with the UTF-8 decoding left to the caller. */
  method ReadStringZeroTerm(reader: BinaryReader) returns (r: Result<Option<Bytes>, IoError>)
    modifies reader
    ensures r == ZeroTerminated(old(reader.Remaining()))
  {
    ghost var s := reader.Remaining();
    var bytes := new Byte[BufferSize];
    var i := 0;
    while i < bytes.Length
      invariant 0 <= i <= BufferSize && i <= |s|
      invariant reader.Remaining() == s[i..]
      invariant bytes[..i] == s[..i]
      invariant ZeroTerminatedFrom(s, i) == ZeroTerminated(s)
    {
      var bt := reader.ReadByte();
      if bt.Failure? {
        return Failure(bt.error);
      }
      if bt.value == 0 {
        return Success(Some(bytes[..i]));
      }
      bytes[i] := bt.value;
      i := i + 1;
    }
    return Success(None);
  }

  /** The unity version file is in the headless data directory on the dedicated server. */
  function DataDirectoryName(isDedicatedServer: bool): string
  {
    if isDedicatedServer then "Unturned_Headless_Data" else "Unturned_Data"
  }

  /** The header of `globalgamemanagers` that is skipped. */
  const HeaderSize: nat := 48

  const UnityVersionFile: string := ".unityversion"

  /** The UTF-8 bytes of `"202"`. */
  const YearPrefix: Bytes := [0x32, 0x30, 0x32]

  /** The sanity checks: not null, not empty, starts with `"202"`. */
  predicate AcceptedUnityVersion(v: Option<Bytes>)
  {
    v.Some? && |v.value| > 0 && |YearPrefix| <= |v.value| && v.value[..|YearPrefix|] == YearPrefix
  }

  /** `Path.Combine(basePath, unturnedDataDirName, "globalgamemanagers")`, relative to the base path. */
  function GlobalGameManagers(isDedicatedServer: bool): string
  {
    Combine(DataDirectoryName(isDedicatedServer), "globalgamemanagers")
  }

  /** What a reader sees after seeking past the header: nothing when the file is shorter. */
  function AfterHeader(data: Bytes): Bytes
  {
    if HeaderSize <= |data| then data[HeaderSize..] else []
  }

  /** The files after `ParseAndWriteUnityVersion`, or the exception it throws. */
  function UnityVersionUpdate(files: map<string, Bytes>, isDedicatedServer: bool): Result<map<string, Bytes>, IoError>
  {
    var path := GlobalGameManagers(isDedicatedServer);
    if path !in files then Success(files)
    else
      var version := ZeroTerminated(AfterHeader(files[path]));
      if version.Failure? then Failure(version.error)
      else if AcceptedUnityVersion(version.value) then Success(files[UnityVersionFile := version.value.value])
      else Success(files)
  }

  /**
   * `.unityversion` is written only with a zero-terminated string of fewer than 32 bytes
   * found right after the header that starts with `"202"`; no other file changes, and
   * without `globalgamemanagers` nothing changes at all.
   */
  lemma UnityVersionWrittenOnlyIfValid(files: map<string, Bytes>, isDedicatedServer: bool)
    ensures GlobalGameManagers(isDedicatedServer) !in files ==>
      UnityVersionUpdate(files, isDedicatedServer) == Success(files)
    ensures var u := UnityVersionUpdate(files, isDedicatedServer);
      u.Success? ==> forall p :: p != UnityVersionFile ==> (p in u.value <==> p in files)
    ensures var u := UnityVersionUpdate(files, isDedicatedServer);
      u.Success? && u.value != files ==>
        var v := u.value[UnityVersionFile];
        && UnityVersionFile in u.value
        && |v| < BufferSize && 0 !in v && v[..3] == YearPrefix
        && var path := GlobalGameManagers(isDedicatedServer);
           && path in files && HeaderSize + |v| < |files[path]|
           && files[path][HeaderSize..HeaderSize + |v|] == v && files[path][HeaderSize + |v|] == 0
    ensures var u := UnityVersionUpdate(files, isDedicatedServer);
      u.Failure? ==> u == Failure(EndOfStream)
  {
    var path := GlobalGameManagers(isDedicatedServer);
    if path in files {
      var data := files[path];
      ZeroTerminatedMeaning(AfterHeader(data));
    }
  }

  /**
   * When the first zero after the header lies within 32 bytes, at `k`, the bytes before it
   * are written to `.unityversion` if they start with `"202"`, and nothing changes otherwise.
   */
  lemma UnityVersionWrittenWhenValid(files: map<string, Bytes>, isDedicatedServer: bool, k: nat)
    requires GlobalGameManagers(isDedicatedServer) in files
    requires var rest := AfterHeader(files[GlobalGameManagers(isDedicatedServer)]);
      k < BufferSize && k < |rest| && rest[k] == 0 && 0 !in rest[..k]
    ensures var rest := AfterHeader(files[GlobalGameManagers(isDedicatedServer)]);
      UnityVersionUpdate(files, isDedicatedServer) ==
        if |YearPrefix| <= k && rest[..|YearPrefix|] == YearPrefix then Success(files[UnityVersionFile := rest[..k]])
        else Success(files)
  {
    var rest := AfterHeader(files[GlobalGameManagers(isDedicatedServer)]);
    ZeroTerminatedMeaning(rest);
    var b := ZeroTerminated(rest).value.value;
    assert b == rest[..k];
    if |YearPrefix| <= k {
      assert b[..|YearPrefix|] == rest[..|YearPrefix|];
    }
  }

  /**
   * Without a zero among the first 32 bytes after the header nothing is written; when the
   * file ends before a zero and before 32 bytes, the read throws.
   */
  lemma UnityVersionUnterminated(files: map<string, Bytes>, isDedicatedServer: bool)
    requires GlobalGameManagers(isDedicatedServer) in files
    ensures var rest := AfterHeader(files[GlobalGameManagers(isDedicatedServer)]);
      BufferSize <= |rest| && 0 !in rest[..BufferSize] ==> UnityVersionUpdate(files, isDedicatedServer) == Success(files)
    ensures var rest := AfterHeader(files[GlobalGameManagers(isDedicatedServer)]);
      |rest| < BufferSize && 0 !in rest ==> UnityVersionUpdate(files, isDedicatedServer) == Failure(EndOfStream)
  {
    var rest := AfterHeader(files[GlobalGameManagers(isDedicatedServer)]);
    ZeroTerminatedMeaning(rest);
    if ZeroTerminated(rest).Success? && ZeroTerminated(rest).value.Some? {
      var b := ZeroTerminated(rest).value.value;
      if BufferSize <= |rest| {
        assert rest[..BufferSize][|b|] == 0;
      } else {
        assert rest[|b|] in rest;
      }
    }
  }

  /** The state of the Unturned directory. */
  class GameDirectory {
    var directories: set<string>
    var files: map<string, Bytes>

    constructor (directories: set<string>, files: map<string, Bytes>)
      ensures this.directories == directories && this.files == files
    {
      this.directories := directories;
      this.files := files;
    }

    function Contents(): Tree
      reads this
    {
      Tree(directories, files)
    }

    /** The loop of `StartAsync` over the DLL names, before each DLL is decompiled. */
    method ResetOutputDirectories(names: seq<string>)
      modifies this
      ensures Contents() == ResetAll(old(Contents()), OutputDirectories(names))
    {
      ghost var dirs := OutputDirectories(names);
      ghost var start := Contents();
      for k := 0 to |names|
        invariant Contents() == ResetAll(start, dirs[..k])
      {
        var outputPath := Normalize(names[k]);
        assert dirs[..k + 1][..k] == dirs[..k];
        ResetDirectory(outputPath);
      }
      assert dirs[..|names|] == dirs;
    }

    /** `if (Directory.Exists(dir)) Directory.Delete(dir, true); else Directory.CreateDirectory(dir);` */
    method ResetDirectory(dir: string)
      modifies this
      ensures Contents() == Reset(old(Contents()), dir)
    {
      if dir in directories {
        directories := set d | d in directories && d != dir && !Under(d, dir);
        files := map f | f in files && !Under(f, dir) :: files[f];
      } else {
        directories := directories + {dir};
      }
    }
  }

  // ---------------------------------------------------------------------------
  // The scenario

  /** `IncludeTypeWhenDecompilingProject`. */
  function IncludeType(t: TypeDefinition): (included: bool)
    ensures !included <==>
      t.name == "<Module>" || t.hidden || (t.ns == "XamlGeneratedNamespace" && t.name == "GeneratedInternalTypeHelper")
  {
    t.name != "<Module>" && !t.hidden
      && (t.ns != "XamlGeneratedNamespace" || t.name != "GeneratedInternalTypeHelper")
  }

  class Scenario {
    /** `s_DecompileDllNames`. */
    const dllNames: seq<string>
    /** `m_BuildId`. */
    var buildId: string
    var isDedicatedServer: bool

    constructor ()
      ensures dllNames == DecompileDllNames
      ensures buildId == UnknownBuildId && !isDedicatedServer
    {
      dllNames := DecompileDllNames;
      buildId := UnknownBuildId;
      isDedicatedServer := false;
    }

    /** `ParseAndWriteUnityVersion`: throws only when `globalgamemanagers` ends too early. */
    method ParseAndWriteUnityVersion(game: GameDirectory) returns (r: Result<(), IoError>)
      modifies game
      ensures var u := UnityVersionUpdate(old(game.files), isDedicatedServer);
        && (u.Failure? ==> r == Failure(u.error) && game.files == old(game.files))
        && (u.Success? ==> r.Success? && game.files == u.value)
      ensures game.directories == old(game.directories)
    {
      var dataDirectory := DataDirectoryName(isDedicatedServer);
      var path := Combine(dataDirectory, "globalgamemanagers");
      if path in game.files {
        var reader := new BinaryReader(game.files[path]);
        reader.Seek(HeaderSize);
        var version := ReadStringZeroTerm(reader);
        if version.Failure? {
          return Failure(version.error);
        }
        if version.value.None? || |version.value.value| == 0 {
          return Success(());
        }
        if !(|YearPrefix| <= |version.value.value| && version.value.value[..|YearPrefix|] == YearPrefix) {
          return Success(());
        }
        game.files := game.files[UnityVersionFile := version.value.value];
      }
      return Success(());
    }

    /**
     * `StartAsync`. Returns false, and changes nothing but the flag field, when the build
     * is not new and `--force` is absent; otherwise records the build id (or `"???"` when
     * forced on an unchanged build), rewrites the econ file, writes the Unity version and
     * resets the output directories.
     */
    method StartAsync(args: seq<string>, manifests: map<string, string>, store: BuildIdFile,
                      econ: EconInfoHelper.EconFile, reserialized: Option<EconInfoHelper.Text>,
                      game: GameDirectory) returns (r: Result<bool, IoError>)
      modifies this, store, econ, game
      ensures isDedicatedServer == !HasFlag(args, "--client")
      ensures ManifestFileName(AppId(isDedicatedServer)) !in manifests ==>
        && r == Failure(FileNotFound(ManifestFileName(AppId(isDedicatedServer))))
        && buildId == old(buildId) && store.stored == old(store.stored)
        && econ.content == old(econ.content) && game.Contents() == old(game.Contents())
      ensures ManifestFileName(AppId(isDedicatedServer)) in manifests ==>
        var d := Gate(old(store.stored), manifests[ManifestFileName(AppId(isDedicatedServer))]);
        && store.stored == d.stored
        && (!d.check.isNewBuild && !HasFlag(args, "--force") ==>
              r == Success(false) && buildId == old(buildId)
              && econ.content == old(econ.content) && game.Contents() == old(game.Contents()))
        && (d.check.isNewBuild || HasFlag(args, "--force") ==>
              && buildId == d.check.buildId.GetOr(UnknownBuildId)
              && (reserialized.None? || |reserialized.value| == 0 ==> econ.content == old(econ.content))
              && (reserialized.Some? && |reserialized.value| > 0 ==>
                    econ.content == EconInfoHelper.Rewrite(reserialized.value))
              && var u := UnityVersionUpdate(old(game.files), isDedicatedServer);
                 && (u.Failure? ==> r == Failure(u.error) && game.Contents() == old(game.Contents()))
                 && (u.Success? ==>
                       && r == Success(true)
                       && game.Contents() == ResetAll(Tree(old(game.directories), u.value),
                                                      OutputDirectories(dllNames))))
    {
      var force := HasFlag(args, "--force");
      isDedicatedServer := !HasFlag(args, "--client");
      var check := store.CheckIsNewBuild(manifests, AppId(isDedicatedServer));
      if check.Failure? {
        return Failure(check.error);
      }
      if !check.value.isNewBuild && !force {
        return Success(false);
      }
      buildId := check.value.buildId.GetOr(UnknownBuildId);
      econ.PrettyPrintEcon(reserialized);
      var written := ParseAndWriteUnityVersion(game);
      if written.Failure? {
        return Failure(written.error);
      }
      game.ResetOutputDirectories(dllNames);
      return Success(true);
    }
  }

  /** Forced on an unchanged build, the scenario records `"???"` as the build id. */
  lemma ForcedUnchangedBuildIsUnknown(stored: string)
    ensures Gate(Some(stored), stored).check.buildId.GetOr(UnknownBuildId) == UnknownBuildId
  {
  }
}
