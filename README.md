# UnturnedDatamining, modelled in Dafny

UnturnedDatamining keeps a public record of the game Unturned. It updates a local copy of the
game through SteamCMD. When a new build appears, it writes a commit message, pretty-prints the
econ JSON and records the Unity version. It then decompiles the game's managed DLLs into one
directory per DLL and writes a Markdown index into every subdirectory of the decompiled project.
A Markdown table helper renders sequences of records as GitHub-Flavored-Markdown tables.

This project models the deterministic core of that pipeline and proves properties of the model.
The modules are:

- `MarkdownTableHelperEx`: the table renderer. It covers column widths, padded header and data
  cells, the alignment divider, the collapsing of duplicate lines by set union, and the join.
- `ReadmeGenerator`: the per-directory index. The file list is sorted in place, the index text is
  built line by line, and the index file name depends on the number of files.
- `EconInfoHelper`: the text rewrite after the econ JSON is re-serialised. `\uXXXX` escapes become
  the code unit they name, then every literal `\n` pair is deleted. Nothing is written when the
  serialised text is null or empty.
- `BuildIdGate`: the `.buildid` compare-and-store. It is shared by both copies of
  `CheckIsNewBuild`.
- `DownloadAndDecompileGame`: the scenario.
  - `StartAsync` gating on `--force` and `--client`, and `m_BuildId`.
  - The Unity-version reader: a bounded zero-terminated string after a 48-byte header, plus its
    sanity checks.
  - Output-directory names and the reset of each output directory.
  - The type filter.
- `DecompilerBoundary`: what the decompilation code sees of a type. It covers the group key built
  from the cleaned name and namespace, and `GroupBy` with ordinal ignore-case keys.
- `SteamCMDWrapper`: `InstallAsync`, which decides between the cached executable, the unsupported
  platform, zip extraction and tar extraction, and the exit-code rule of `UpdateGameAsync`.
- `Program`: the older single-DLL `Main`. It chooses the root directory, runs the SteamCMD block
  with its exit-code tolerance, applies the build-id gate and the `--force` skip, then resets the
  output directory. Steps that lie outside the model are recorded in order as a trace.
- `Wrappers`, `Strings` and `Paths` hold `Option`/`Result`, bytes, padding, joining, ordinal
  ignore-case comparison, `Path.Combine` and `Path.GetFileName`.

Several library facilities are parameters rather than code:

- the file system: a set of directories and a map from path to bytes, or an input listing;
- the parsed manifests: a map from manifest file name to build id;
- the re-serialised JSON;
- the SteamCMD exit code and the platform;
- `Environment.NewLine`;
- the sort comparer: any total preorder;
- the decompiler's `CleanUpFileName`, `CleanUpDirectoryName` and `MemberIsHidden`.

Paths use `/` as the separator.

On an invalid `args[0]`, `Main` does not fail by itself. It falls back to the current directory
and returns 1 only when that directory is missing too. The model follows the code
(`Program.ChooseRoot`, `Program.RootIsValidUnlessBothAreMissing`).

`Main` calls `SteamCMD.Install()`, but the wrapper declares `InstallAsync`. The model treats that
call as the install step. Likewise the scenario's `DecompileDll` calls
`ReadmeGenerator.GenerateReadmeFiles`, while the generator declares `GenerateReadmeFilesAsync`;
that call lies inside the decompilation step, which is not modelled.

## Model

| member | source | states |
|---|---|---|
| MarkdownTableHelperEx.RightAlign | UnturnedDatamining/UnturnedDatamining/MarkdownTableHelperEx.cs:52-65 | The alignment character is `:` exactly for the eleven numeric property types and a space for every other type. |
| MarkdownTableHelperEx.AggregateZipMaxBounds | UnturnedDatamining/UnturnedDatamining/MarkdownTableHelperEx.cs:43-45 | Folding `Zip(Math.Max)` over equal-length vectors keeps the length. Each component is at least the accumulator's and every vector's, and equals one of them. |
| MarkdownTableHelperEx.ColumnWidthIsMaximum | UnturnedDatamining/UnturnedDatamining/MarkdownTableHelperEx.cs:40-46 | A column's width is the maximum of its header name length and the text length of every record's cell, with null counting as 0. |
| MarkdownTableHelperEx.EmptySourceWidths | UnturnedDatamining/UnturnedDatamining/MarkdownTableHelperEx.cs:40-46 | With no records, the widths are exactly the header name lengths. |
| Strings.PadRight | UnturnedDatamining/UnturnedDatamining/MarkdownTableHelperEx.cs:50 | `PadRight(width)` keeps the text as a prefix, fills with spaces and has length max(text length, width). |
| Strings.Repeat | UnturnedDatamining/UnturnedDatamining/MarkdownTableHelperEx.cs:71 | `new string(c, n)` is n copies of c. |
| MarkdownTableHelperEx.DividerSegment | UnturnedDatamining/UnturnedDatamining/MarkdownTableHelperEx.cs:67-72 | A divider segment is width dashes followed by `:` for numeric columns or a space otherwise. |
| MarkdownTableHelperEx.CellsArePadded | UnturnedDatamining/UnturnedDatamining/MarkdownTableHelperEx.cs:50-81 | Every header cell and data cell is its text right-padded with spaces to exactly the column width. Numeric cells are padded the same way. |
| Strings.JoinLength | UnturnedDatamining/UnturnedDatamining/MarkdownTableHelperEx.cs:50 | `string.Join` is as long as its parts plus one separator between each pair of neighbours. |
| MarkdownTableHelperEx.PaddedLineLength | UnturnedDatamining/UnturnedDatamining/MarkdownTableHelperEx.cs:50 | A line of padded cells, opened by a bar and a space, separated by space-bar-space and closed by a space and a bar, has length sum(widths) + 3·columns + 1. |
| MarkdownTableHelperEx.DividerLineLength | UnturnedDatamining/UnturnedDatamining/MarkdownTableHelperEx.cs:67-72 | The divider line has that same length. |
| MarkdownTableHelperEx.LineLengths | UnturnedDatamining/UnturnedDatamining/MarkdownTableHelperEx.cs:50-81 | Every line of the table (header, divider, data) has length sum(widths) + 3·columns + 1. |
| MarkdownTableHelperEx.Distinct | UnturnedDatamining/UnturnedDatamining/MarkdownTableHelperEx.cs:74-81 | `Union` yields exactly the input's lines, with no duplicates and no more lines than the input. |
| MarkdownTableHelperEx.DistinctKeepsFirstOccurrenceOrder | UnturnedDatamining/UnturnedDatamining/MarkdownTableHelperEx.cs:74-81 | The lines `Union` keeps come in the order of their first occurrence. |
| MarkdownTableHelperEx.DistinctOfDistinct | UnturnedDatamining/UnturnedDatamining/MarkdownTableHelperEx.cs:74-78 | `Union` leaves a duplicate-free sequence unchanged. |
| MarkdownTableHelperEx.DistinctOfConcat | UnturnedDatamining/UnturnedDatamining/MarkdownTableHelperEx.cs:74-81 | The union of a and b begins with the distinct lines of a. Later lines never displace earlier ones. |
| MarkdownTableHelperEx.HeaderIsNotDivider | UnturnedDatamining/UnturnedDatamining/MarkdownTableHelperEx.cs:50-72 | For non-empty property names without `-`, the header line differs from the divider line, so `Union` keeps both. |
| MarkdownTableHelperEx.TableLineOrder | UnturnedDatamining/UnturnedDatamining/MarkdownTableHelperEx.cs:74-81 | The header comes first and the divider second. No line repeats and every record's row line is present. Every line is the header, the divider or a row line, and lines keep the order of their first occurrence among those lines. |
| MarkdownTableHelperEx.AggregateLinesIsJoin | UnturnedDatamining/UnturnedDatamining/MarkdownTableHelperEx.cs:83-84 | `Aggregate((p, c) => p + NewLine + c)` is the lines joined by the newline, with no trailing newline. |
| MarkdownTableHelperEx.EmptySource | UnturnedDatamining/UnturnedDatamining/MarkdownTableHelperEx.cs:40-84 | An empty source renders exactly header, newline, divider, with widths equal to the header name lengths. |
| ReadmeGenerator.SortPaths | UnturnedDatamining/UnturnedDatamining/ReadmeGenerator.cs:13 | `Array.Sort` leaves the array sorted by the comparer and a permutation of its old content. |
| ReadmeGenerator.ReadmeName | UnturnedDatamining/UnturnedDatamining/ReadmeGenerator.cs:26 | The index is `0README.md` exactly when there are more than 1000 files, and `README.md` exactly otherwise, 1000 included. |
| Paths.FileNameIsFinalComponent | UnturnedDatamining/UnturnedDatamining/ReadmeGenerator.cs:21 | `Path.GetFileName` is a separator-free suffix of the path, preceded by a separator unless it is the whole path. |
| Paths.FileNameOfCombine | UnturnedDatamining/UnturnedDatamining/ReadmeGenerator.cs:21 | The file name of `Path.Combine(dir, name)` is `name`, for a non-empty separator-free name. |
| ReadmeGenerator.LinkLineNamesFile | UnturnedDatamining/UnturnedDatamining/ReadmeGenerator.cs:21-23 | A file `dir/name` contributes the line `- [name](name)`, with the same name in brackets and parentheses. |
| ReadmeGenerator.BuildIndexText | UnturnedDatamining/UnturnedDatamining/ReadmeGenerator.cs:15-24 | The StringBuilder loop produces exactly the index text of the directory name and the listing. |
| ReadmeGenerator.IndexTextIsLines | UnturnedDatamining/UnturnedDatamining/ReadmeGenerator.cs:15-24 | The index text is its lines, each followed by the newline. There are files + 2 lines: `# <name>`, `## Content`, then file k's link line at position k + 2. |
| ReadmeGenerator.EveryFileListedOnce | UnturnedDatamining/UnturnedDatamining/ReadmeGenerator.cs:12-24 | The link lines of the sorted listing are, as a multiset, those of the files, so every file is listed exactly once. |
| ReadmeGenerator.GenerateReadme | UnturnedDatamining/UnturnedDatamining/ReadmeGenerator.cs:11-27 | Per directory: the listing is the files, sorted and permuted. The index is written to `Path.Combine(dir, ReadmeName(count))` with the index text of the directory's own name and that listing. |
| ReadmeGenerator.GenerateReadmeFiles | UnturnedDatamining/UnturnedDatamining/ReadmeGenerator.cs:8-28 | Exactly one index is written per immediate subdirectory, and each satisfies `GenerateReadme`'s contract. |
| EconInfoHelper.UnescapeBounds | UnturnedDatamining/UnturnedDatamining/EconInfoHelper.cs:24-28 | The escape replacement never lengthens the text and leaves backslash-free text unchanged. |
| EconInfoHelper.DeletionBounds | UnturnedDatamining/UnturnedDatamining/EconInfoHelper.cs:30 | Deleting `\n` pairs never lengthens the text and leaves backslash-free text unchanged. |
| EconInfoHelper.RewriteBounds | UnturnedDatamining/UnturnedDatamining/EconInfoHelper.cs:24-30 | The whole rewrite is never longer than its input, and text without a backslash passes through unchanged. |
| EconInfoHelper.EscapeIsReplaced | UnturnedDatamining/UnturnedDatamining/EconInfoHelper.cs:25-28 | After a backslash-free prefix, a backslash, `u` or `U` and four hex digits of either case become the one code unit of that value. Scanning resumes after the six units. |
| EconInfoHelper.PlainPrefixIsKept | UnturnedDatamining/UnturnedDatamining/EconInfoHelper.cs:25-28 | A backslash-free prefix passes through the escape replacement unchanged, whatever follows it. |
| EconInfoHelper.NonEscapeIsKept | UnturnedDatamining/UnturnedDatamining/EconInfoHelper.cs:25-28 | After a backslash-free prefix, a backslash that starts no escape (a JSON `\"`, `\\`, `\t`, `\n`, or `\u` without four hex digits) is kept, and scanning resumes right behind it. |
| EconInfoHelper.ShortEscapeIsKept | UnturnedDatamining/UnturnedDatamining/EconInfoHelper.cs:42-43 | A `\u` not followed by four hex digits is kept as is, and scanning resumes after it. |
| EconInfoHelper.EscapedNewlineIsDeleted | UnturnedDatamining/UnturnedDatamining/EconInfoHelper.cs:30 | After a backslash-free prefix, a literal backslash-`n` pair is deleted. |
| EconInfoHelper.OtherBackslashIsKept | UnturnedDatamining/UnturnedDatamining/EconInfoHelper.cs:30 | After a backslash-free prefix, a backslash not followed by `n` is kept, and the deletion resumes right behind it. |
| EconInfoHelper.UnescapeRunsFirst | UnturnedDatamining/UnturnedDatamining/EconInfoHelper.cs:25-30 | Unescaping runs before the deletion: every escape denoting a backslash (such as `\u005C`) followed by `n` forms a pair that the deletion removes, so the rewrite of such text is the rewrite of what follows the seven units. |
| EconInfoHelper.ProducedTextIsNotRescanned | UnturnedDatamining/UnturnedDatamining/EconInfoHelper.cs:25-28 | A backslash produced by an escape never starts a new escape: when the five units behind it would complete one, they stay literal (`\u005Cu0041` becomes `\u0041`, not `A`). |
| EconInfoHelper.EconFile.PrettyPrintEcon | UnturnedDatamining/UnturnedDatamining/EconInfoHelper.cs:19-39 | Null or empty serialised JSON leaves the file as it was. Otherwise the file's whole content becomes the rewrite of the JSON. |
| BuildIdGate.Gate | UnturnedDatamining/UnturnedDatamining/Scenarios/DownloadAndDecompileGame.cs:145-157 | An absent or different stored id gives (true, manifest id). An equal one gives (false, null). Afterwards the store always holds the manifest id. |
| BuildIdGate.GateWritesOnlyWhenNew | UnturnedDatamining/UnturnedDatamining/Scenarios/DownloadAndDecompileGame.cs:145-157 | The store is left unchanged exactly when no new build is reported. |
| BuildIdGate.SecondCheckIsNotNew | UnturnedDatamining/UnturnedDatamining/Scenarios/DownloadAndDecompileGame.cs:145-157 | An immediate second check with the same manifest returns (false, null). |
| BuildIdGate.ManifestFileNameIsInjective | UnturnedDatamining/UnturnedDatamining/Scenarios/DownloadAndDecompileGame.cs:133 | Different app ids name different `appmanifest_<id>.acf` files. |
| BuildIdGate.BuildIdFile.CheckIsNewBuild | UnturnedDatamining/UnturnedDatamining/Scenarios/DownloadAndDecompileGame.cs:130-158 | A missing manifest throws `FileNotFound` naming it, before the store is touched. Otherwise the method returns the gate's answer and leaves the gate's new store. |
| DownloadAndDecompileGame.Normalize | UnturnedDatamining/UnturnedDatamining/Scenarios/DownloadAndDecompileGame.cs:50 | `Replace('.', '-')` keeps the length, maps each `.` to `-` and every other character to itself, and leaves no `.`. |
| DownloadAndDecompileGame.NormalizeIsIdempotent | UnturnedDatamining/UnturnedDatamining/Scenarios/DownloadAndDecompileGame.cs:50 | Normalising twice is normalising once. |
| DownloadAndDecompileGame.NormalizeAddsOnlyDashes | UnturnedDatamining/UnturnedDatamining/Scenarios/DownloadAndDecompileGame.cs:50 | Normalisation introduces no character other than `-`. |
| DownloadAndDecompileGame.OutputDirectories | UnturnedDatamining/UnturnedDatamining/Scenarios/DownloadAndDecompileGame.cs:48-51 | One output directory per DLL name, in order, each the normalised name. |
| DownloadAndDecompileGame.DllNamesHaveDistinctLengths | UnturnedDatamining/UnturnedDatamining/Scenarios/DownloadAndDecompileGame.cs:17-27 | The eight DLL names are non-empty, separator-free and of pairwise different lengths. |
| DownloadAndDecompileGame.OutputDirectoriesAreDistinct | UnturnedDatamining/UnturnedDatamining/Scenarios/DownloadAndDecompileGame.cs:48-51 | Names of pairwise different lengths give distinct, non-empty, separator-free output directories. |
| DownloadAndDecompileGame.DllOutputDirectoriesAreDistinct | UnturnedDatamining/UnturnedDatamining/Scenarios/DownloadAndDecompileGame.cs:17-51 | The eight output directories are distinct, so no DLL's reset disturbs another's. |
| DownloadAndDecompileGame.ResetEffect | UnturnedDatamining/UnturnedDatamining/Scenarios/DownloadAndDecompileGame.cs:53-60 | An existing output directory is deleted with everything under it, and a missing one is created. Every path outside it keeps its presence and content, and no file is created. |
| DownloadAndDecompileGame.ResetAllEffect | UnturnedDatamining/UnturnedDatamining/Scenarios/DownloadAndDecompileGame.cs:48-63 | After the loop each output directory exists exactly when it did not exist before. Files under a directory that existed are gone, everything outside the output directories is unchanged, and no file is created. |
| DownloadAndDecompileGame.BinaryReader.Seek | UnturnedDatamining/UnturnedDatamining/Scenarios/DownloadAndDecompileGame.cs:90 | Seeking moves the position to the offset. |
| DownloadAndDecompileGame.BinaryReader.ReadByte | UnturnedDatamining/UnturnedDatamining/Scenarios/DownloadAndDecompileGame.cs:118 | At the end of the stream the read throws `EndOfStream`. Otherwise it returns the next byte and advances by one. |
| DownloadAndDecompileGame.ZeroTerminatedMeaning | UnturnedDatamining/UnturnedDatamining/Scenarios/DownloadAndDecompileGame.cs:112-127 | A string is returned only as the zero-free bytes before a zero within the first 32. Null means 32 non-zero bytes. The exception means the stream ended first without a zero. |
| DownloadAndDecompileGame.ReadStringZeroTerm | UnturnedDatamining/UnturnedDatamining/Scenarios/DownloadAndDecompileGame.cs:112-127 | The 32-byte buffer loop returns exactly the zero-terminated reading of the remaining stream. |
| DownloadAndDecompileGame.UnityVersionWrittenOnlyIfValid | UnturnedDatamining/UnturnedDatamining/Scenarios/DownloadAndDecompileGame.cs:79-110 | No file other than `.unityversion` changes. When it is written, it holds a non-empty zero-free version of under 32 bytes, starting with `202`, read right after the 48-byte header of `globalgamemanagers`. The version ends at a zero byte. Without `globalgamemanagers` nothing changes. The only exception is end of stream. |
| DownloadAndDecompileGame.UnityVersionWrittenWhenValid | UnturnedDatamining/UnturnedDatamining/Scenarios/DownloadAndDecompileGame.cs:92-109 | When the first zero after the header lies within 32 bytes, the bytes before it are written to `.unityversion` exactly when they start with `202`; otherwise the files stay as they were. |
| DownloadAndDecompileGame.UnityVersionUnterminated | UnturnedDatamining/UnturnedDatamining/Scenarios/DownloadAndDecompileGame.cs:92-127 | With 32 non-zero bytes after the header nothing is written. When the file ends first without a zero, the read throws `EndOfStream`. |
| DownloadAndDecompileGame.Scenario.ParseAndWriteUnityVersion | UnturnedDatamining/UnturnedDatamining/Scenarios/DownloadAndDecompileGame.cs:79-110 | The files become the Unity-version update of the old files, or are left unchanged when that update throws. Directories are untouched. |
| DownloadAndDecompileGame.GameDirectory.ResetOutputDirectories | UnturnedDatamining/UnturnedDatamining/Scenarios/DownloadAndDecompileGame.cs:48-63 | The loop resets each DLL's output directory in turn. |
| DownloadAndDecompileGame.IncludeType | UnturnedDatamining/UnturnedDatamining/Scenarios/DownloadAndDecompileGame.cs:218-224 | A type is excluded exactly when it is `<Module>`, is hidden, or is `XamlGeneratedNamespace.GeneratedInternalTypeHelper`. |
| DownloadAndDecompileGame.Scenario.constructor | UnturnedDatamining/UnturnedDatamining/Scenarios/DownloadAndDecompileGame.cs:17-30 | The DLL list is the eight names and `m_BuildId` starts as `???`. |
| DownloadAndDecompileGame.Scenario.StartAsync | UnturnedDatamining/UnturnedDatamining/Scenarios/DownloadAndDecompileGame.cs:32-66 | `--client` (ignoring case) selects the client. A missing manifest throws with nothing changed. Without a new build and without `--force`, the method returns false with no work done. Otherwise `m_BuildId` is the new id or `???`, the econ file is rewritten, and the Unity version is written, or its exception escapes before the DLL loop, leaving the game directory unchanged. On success all output directories are reset and the method returns true. |
| DownloadAndDecompileGame.ForcedUnchangedBuildIsUnknown | UnturnedDatamining/UnturnedDatamining/Scenarios/DownloadAndDecompileGame.cs:44 | A forced run on an unchanged build sets `m_BuildId` to `???`. |
| DecompilerBoundary.GroupKeyShape | UnturnedDatamining/UnturnedDatamining/Scenarios/DownloadAndDecompileGame.cs:181-195 | The group key always ends in the cleaned type name + `.cs`. It is that file name alone exactly when the namespace is empty. |
| DecompilerBoundary.GroupByPartitions | UnturnedDatamining/UnturnedDatamining/Scenarios/DownloadAndDecompileGame.cs:179-195 | `GroupBy` with `OrdinalIgnoreCase` gives keys that differ ignoring case. Each type lies in a group whose key matches its own, and the groups hold exactly the input types. |
| DecompilerBoundary.GroupByKeepsEveryType | UnturnedDatamining/UnturnedDatamining/Scenarios/DownloadAndDecompileGame.cs:179-195 | The groups' members, taken together, are the input types as a multiset: no type is dropped or duplicated. |
| SteamCMDWrapper.NormalizeExitCode | UnturnedDatamining/UnturnedDatamining/SteamCMDWrapper.cs:93-100 | The result is 0 or the exit code. It is 0 exactly when the code is 0, or 7 on Windows. |
| SteamCMDWrapper.SevenIsSuccessOnlyOnWindows | UnturnedDatamining/UnturnedDatamining/SteamCMDWrapper.cs:93-94 | Exit code 7 maps to 0 on Windows and stays 7 elsewhere. |
| SteamCMDWrapper.SteamCmd.UpdateGameAsync | UnturnedDatamining/UnturnedDatamining/SteamCMDWrapper.cs:88-101 | The method returns the normalised exit code. |
| SteamCMDWrapper.CachedPathIsInstalledPath | UnturnedDatamining/UnturnedDatamining/SteamCMDWrapper.cs:22 | The path the cached check tests equals the path a fresh install records. |
| SteamCMDWrapper.InstalledExecutableName | UnturnedDatamining/UnturnedDatamining/SteamCMDWrapper.cs:80 | The recorded executable's file name is `steamcmd.exe` or `steamcmd.sh`. |
| SteamCMDWrapper.ExtractZipContents | UnturnedDatamining/UnturnedDatamining/SteamCMDWrapper.cs:50-71 | Extraction adds exactly the paths of entries with a non-empty file name. Every other file keeps its content. |
| SteamCMDWrapper.LastEntryWins | UnturnedDatamining/UnturnedDatamining/SteamCMDWrapper.cs:58-69 | A path holds the data of the last entry written to it. |
| SteamCMDWrapper.SteamCmd.ExtractZipEntries | UnturnedDatamining/UnturnedDatamining/SteamCMDWrapper.cs:50-71 | The entry loop, which skips empty file names, leaves the files as the extraction function describes. |
| SteamCMDWrapper.SteamCmd.constructor | UnturnedDatamining/UnturnedDatamining/SteamCMDWrapper.cs:12-17 | A new wrapper has its directory and no executable path yet. |
| SteamCMDWrapper.SteamCmd.InstallAsync | UnturnedDatamining/UnturnedDatamining/SteamCMDWrapper.cs:19-81 | An existing directory holding `steamcmd.exe` or `steamcmd.sh` sets the path with nothing downloaded. Otherwise a platform that is neither Windows nor Linux throws `PlatformNotSupported` with nothing changed. Otherwise the zip or tar archive is extracted and the path is the directory + `steamcmd.` + `exe` or `sh`. |
| Program.ChooseRoot | UnturnedDatamining/UnturnedDatamining/Program.cs:25-29 | The root is `args[0]` when it is an existing directory, and the current directory otherwise. |
| Program.RootIsValidUnlessBothAreMissing | UnturnedDatamining/UnturnedDatamining/Program.cs:25-35 | The chosen root is missing exactly when the current directory is missing and `args[0]` is no existing directory. |
| Program.UpdateFailedAgreesWithWrapper | UnturnedDatamining/UnturnedDatamining/Program.cs:52-57 | `Main`'s stop condition matches the wrapper's rule: it stops exactly when the wrapper reports a non-zero code, and returns that same code. |
| Program.IncludeType | UnturnedDatamining/UnturnedDatamining/Program.cs:195-205 | `<Module>` and hidden types are excluded. |
| Program.IncludeTypeVariantsAgree | UnturnedDatamining/UnturnedDatamining/Program.cs:195-205 | This copy of the type filter accepts exactly the types the scenario's copy accepts. |
| Program.CheckAndProcess | UnturnedDatamining/UnturnedDatamining/Program.cs:60-80 | A missing manifest throws with nothing changed. Without a new build and without `--force`, `Main` returns 0 with no further step. Otherwise the commit, econ and decompile steps follow in order, the output directory is reset, and `Main` returns 0. |
| Program.MainFlow | UnturnedDatamining/UnturnedDatamining/Program.cs:20-81 | A missing root returns 1 with no effect. Without `--nosteam`, a failed update returns its exit code after the SteamCMD steps. Otherwise `CheckAndProcess`'s contract holds, with the SteamCMD steps first unless `--nosteam` is given (flags are matched ignoring case). |
| Strings.AsciiUpper | UnturnedDatamining/UnturnedDatamining/Program.cs:22-23 | Ordinal ignore-case comparison folds `a`–`z` onto `A`–`Z` and leaves every other character alone. |

## Left out

- Decompilation (`PEFile`, the type system, `CSharpDecompiler` and writing the grouped files) is foreign library code. `CleanUpFileName`, `CleanUpDirectoryName` and `MemberIsHidden` are parameters or fields, and in `Program` `DecompileDll` is a trace step. In the scenario, `DecompileDll(unturnedPath, name, outputPath)` leaves no trace at all: `StartAsync` states the final directory tree as the resets alone, without the decompiled files or index files it writes.
- `Parallel.ForEach` and `Parallel.ForEachAsync` are concurrency. Directories and groups are handled one at a time, in order.
- Parsing the KeyValues manifest is foreign code. The manifests arrive as a map from file name to build id.
- JSON re-indentation through `JsonDocument`/`JsonSerializer` is library code. The re-serialised text is an input. The econ file failing to open (`FileNotFoundException` from `File.Open`) is not modelled.
- `WriteCommit` and `WriteCommitToFileAsync` read `Status.json` and the clock. They are recorded as a step, and the scenario's version is not modelled.
- The SteamCMD process launch and its arguments, the HTTP download and gzip/tar decoding are I/O. The tar archive arrives as the files it extracts to, and the zip archive as its list of entries.
- Zip extraction's `Directory.CreateDirectory(Path.GetDirectoryName(...))` is not modelled. Only files are tracked below the SteamCMD directory.
- `Directory.CreateDirectory` for each namespace directory inside the `GroupBy` key selector is not modelled, and neither is the `HashSet` with the platform's file-name comparer that guards it.
- `Program.PrettyPrintEcon` (the older rewrite without unescaping or truncation) and `Program.DecompileDll` appear only as trace steps.
- `Path.GetFullPath` in `Main` is treated as the identity.
- Paths are relative to the Unturned directory and use `/` as the only separator. Windows `\` separators and Windows-rooted second arguments to `Path.Combine` (drive letters, `\`) are not modelled; a second argument starting with `/` replaces the first, as on Unix.
- `OrdinalIgnoreCase` is modelled as ASCII case folding. Non-ASCII case pairs are not modelled.
- Lengths in the table renderer and the index builder count Dafny characters, not UTF-16 code units, so text with supplementary-plane characters may differ. The econ rewrite does work on UTF-16 code units.
- The culture-sensitive comparer of `Array.Sort` is any total preorder `le`. Only sortedness and permutation are stated, not the order of equal elements.
- UTF-8 decoding of the Unity version is left out: the version stays a byte sequence. The culture-sensitive `StartsWith("202")` is a byte-prefix test against `202` in ASCII.
- `ReadStringZeroTerm` does not model the `stackalloc` buffer's lifetime. The buffer is a fresh array of 32 bytes.
- `DownloadDataFromWebsites` and the `IScenario` interface hold no logic of their own.
- The static `SteamCMD` property of `Program` is not modelled. `Main`'s SteamCMD block is the trace steps `InstallSteamCmd` and `UpdateGame`, and its exit code is an input.
- `Program.IncludeType` states only the first exclusion as its own contract. The full characterisation is proved through `Program.IncludeTypeVariantsAgree` and `DownloadAndDecompileGame.IncludeType`.
- UnescapeUnicode: the lemma `UnescapeBounds` states only the length bound and the pass-through of backslash-free text. What happens at each backslash is stated by the lemmas `EscapeIsReplaced` and `NonEscapeIsKept`; together with the pass-through they determine the result on every text.
- RemoveEscapedNewlines: the lemma `DeletionBounds` states only the length bound and the pass-through of backslash-free text. What happens at each backslash is stated by the lemmas `EscapedNewlineIsDeleted` and `OtherBackslashIsKept`; together with the pass-through they determine the result on every text.
- `EconInfoHelper` works on the rewritten string. `new StreamWriter(stream)` encodes it as UTF-8, replacing a lone surrogate that an escape produced by U+FFFD; that encoding is not modelled.
- LineLengths, TableLineOrder and EmptySource require at least one column. With no columns the header `|  |` and the divider `| |` differ in length, so the equal-length claim does not hold there, and that case is not stated.
- GroupByPartitions: it and `GroupByKeepsEveryType` state membership and multiplicity, not the order of the groups (order of first key) or of the members within a group (source order).
