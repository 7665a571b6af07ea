# mapbox-embed-vue packaging and export CLI, modelled in Dafny

The repository's Vue component comes with a small command-line utility:

- Two build scripts zip the component's `src` folder under `src/`. They add a trimmed
  `package.json` at the archive root. One script is in the CLI package and writes to `dist/`.
  The other is in the component package, deletes the `cli` entries, and writes to `exports/`.
- An export command, `--export <dir>`, resolves the newest release asset of the package from the
  release index. It downloads the asset into `<dir>`, extracts it into a `mapbox-embed-vue`
  directory next to the download, and deletes the download.

This project models that decision logic and its effects on the file system. The network, the zip
format and the JSON serialisation are parameters.

Modules, one per concern and one per source file:

| file | module | models |
|---|---|---|
| `wrappers.dfy` | `Wrappers` | `Option` / `Result` |
| `paths.dfy` | `Paths` | `includes`, `split('/').pop()`, `path.join`, `path.dirname` |
| `archive.dfy` | `Archives` | the adm-zip archive object (`Zip` class) |
| `filesystem.dfy` | `FileSystems` | the file system: a `Disk` value, step functions, and the `FileSystem` class that changes it in place |
| `manifest.dfy` | `Manifests` | the manifest and the seven-key strip |
| `packaging.dfy` | `Packaging` | what both compile scripts share |
| `export.dfy` | `Export` | `packages/cli/src/export.ts` |
| `compile_cli.dfy` | `CliCompile` | `packages/cli/src/compile.ts` |
| `compile_component.dfy` | `ComponentCompile` | `packages/mapbox-embed-vue/src/cli/compile.ts` |
| `cli_index.dfy` | `CliEntry` | `packages/mapbox-embed-vue/src/cli/index.ts` |

Every operation that changes state has two forms:

- a pure function from the old `Disk` to the outcome and the new `Disk` (for example `MkDirStep`,
  `DownloadSpec`, `RunExportSpec`, `CompileSpec`);
- a method of the `FileSystem` or `Zip` class, or a method taking a `FileSystem`, whose `ensures`
  equates its result and new state with that function.

The properties themselves are lemmas about the functions.

Failures come from the state, not from oracles:

- `mkdirSync` fails when the path exists or its parent is not a directory. It is not recursive.
- Opening a file for writing fails when the path is a directory or its parent is not a directory.
- `unlinkSync` fails when the file is missing.
- Extraction fails for four reasons:
  - the archive file is missing;
  - the archive cannot be decoded;
  - the destination is a file;
  - an entry would land on a directory.

Behaviours of the code that the model keeps as written:

- The CLI package's script excludes nothing from the archive. The component's script deletes
  only `src/cli` and `cli.ts`, and the latter matches nothing. Under the assumed `deleteFile`
  rule (see `Archives.RemoveSubtree` below), deleting `src/cli` also removes everything under it.
- A missing body or a failed write is caught: `downloadFile` returns `undefined`, and
  `runExport` then completes normally. So the CLI exits 0 although nothing was exported.
- The usage text asks for an absolute directory. The code accepts any non-empty string.
- A trailing `/` on the output directory is dropped by `existsSync`, `mkdirSync` and
  `path.join`, so `out/` and `out` export to the same place.

## Model

| member | source | states |
|---|---|---|
| `CliEntry.Args` | packages/mapbox-embed-vue/src/cli/index.ts:4 | the arguments are `argv` without its first two elements, and empty when `argv` is shorter |
| `CliEntry.Decide` | packages/mapbox-embed-vue/src/cli/index.ts:6-15 | usage error exactly when there is no argument, the first is not exactly `--export`, or the second is missing or empty; otherwise the export runs on `args[1]` |
| `CliEntry.DecideIgnoresExtraArguments` | packages/mapbox-embed-vue/src/cli/index.ts:11 | arguments after the second one do not change the decision |
| `CliEntry.DecideAcceptsAnyDirectory` | packages/mapbox-embed-vue/src/cli/index.ts:8-12 | any non-empty directory, relative or absolute, is accepted and passed on unchanged |
| `CliEntry.InvocationExitCode` | packages/mapbox-embed-vue/src/cli/index.ts:17-23 | exit code is 0 or 1; a usage error exits 1 and changes nothing; otherwise the state is what `runExport` leaves and the code is 0 exactly when it completes |
| `CliEntry.InvocationExportsRelease` | packages/mapbox-embed-vue/src/cli/index.ts:6-23 | when the argument checks pass and the export goes through, the process exits 0, with the extracted entries in place and the archive gone |
| `CliEntry.Cli` | packages/mapbox-embed-vue/src/cli/index.ts:4-23 | the script's exit code and new file system are those of `Invocation` |
| `Paths.ContainsIsOccurrence` | packages/cli/src/export.ts:15 | `includes` holds exactly when the package name occurs at some position of the asset name |
| `Paths.LastSegment` | packages/cli/src/export.ts:30 | the result is a suffix of the URL with no `/`, and is either the whole URL or preceded by `/` |
| `Paths.LastSegmentUnique` | packages/cli/src/export.ts:30 | those conditions determine the last segment |
| `Paths.LastSegmentWhole` | packages/cli/src/export.ts:30 | the last segment is the whole URL exactly when the URL has no `/` |
| `Paths.LastSegmentOfTrailingSlash` | packages/cli/src/export.ts:30 | a URL ending in `/` gives the empty file name |
| `Paths.Dirname` | packages/cli/src/export.ts:21 | a path with a `/` is its dirname, `/`, and its last segment; a path without one has the empty dirname |
| `Paths.TrimTrailingSlashes` | packages/cli/src/export.ts:32-36 | the result is the path with its trailing `/`s removed: a prefix that does not end in `/`, followed in the input only by `/`s |
| `Paths.TrimTrailingSlashesCharacterised` | packages/cli/src/export.ts:32-36 | those conditions determine the trimmed path, both ways |
| `Paths.TrimTrailingSlashesOfSlash` | packages/cli/src/export.ts:32-36 | one more trailing `/` trims to the same path |
| `Paths.JoinSplits` | packages/cli/src/export.ts:36 | joining a directory and a plain non-empty name, then taking last segment and dirname, gives both back |
| `Export.Find` | packages/cli/src/export.ts:15 | no result exactly when no asset name contains the package name; otherwise the result is the first such asset in list order |
| `Export.GetReleaseUrl` | packages/cli/src/export.ts:10-16 | given the answer to the request for the fixed release-index URL: a failed request throws; otherwise the URL is that of the first matching asset, and no matching asset throws |
| `Export.Filename` | packages/cli/src/export.ts:30 | a non-empty explicit name is used as given; otherwise the name is the URL's suffix after its last `/` (empty when the URL ends in `/`) |
| `Export.UnzipDestination` | packages/cli/src/export.ts:21 | the extraction directory is never the working directory itself |
| `Export.UnzipNextToDownload` | packages/cli/src/export.ts:21-22 | the archive downloaded as `join(outputDir, name)` is extracted to `join(outputDir, "mapbox-embed-vue")`, a sibling |
| `Export.TargetAvoidsArchive` | packages/cli/src/export.ts:21-22 | no extracted entry with a non-empty name is written onto the archive's own path |
| `Export.DownloadResult` | packages/cli/src/export.ts:26-45 | only a rejected fetch throws, and then nothing changes; no body gives no path and no change; a path comes back exactly when there is a body, the directory exists or could be made, and the write succeeded; it is `join(outputDir, filename)`, with `outputDir`'s trailing `/`s dropped, and holds the body; the only directory that may appear is the output directory, the returned file is the only file that changes, and without a path no file changes |
| `Export.DownloadDirIdempotent` | packages/cli/src/export.ts:32-36 | with a body, creating the output directory beforehand changes neither the result nor the final state |
| `Export.DownloadIgnoresTrailingSlash` | packages/cli/src/export.ts:32-36 | a trailing `/` on the output directory changes neither the result nor the final state |
| `Export.DownloadIntoFreshDirectory` | packages/cli/src/export.ts:29-40 | on an empty file system, downloading into `out/` creates `out` and returns `out/<last URL segment>`, which holds the body |
| `Export.NoMatchingAssetNoDownload` | packages/cli/src/export.ts:47-49 | with no asset naming the package, `runExport` throws and the file system is untouched, whatever the network would serve |
| `Export.FetchRejectionPropagates` | packages/cli/src/export.ts:27-28 | a rejected `fetch` makes `runExport` throw and changes nothing |
| `Export.NoPathNoExtraction` | packages/cli/src/export.ts:49-53 | when the download returns no path, `runExport` completes with the download's state: no extraction, no deletion |
| `Export.FinishSpec` | packages/cli/src/export.ts:51-52 | extraction then `unlinkSync`: it completes, throws at extraction with nothing changed, or throws at deletion; on completion the archive is gone |
| `Export.ExtractThenDelete` | packages/cli/src/export.ts:50-53 | after a download, either the archive is extracted and then deleted, or extraction throws and nothing changes; deletion never fails; on completion the sibling directory is the only new directory, every entry lands under it with its data, every file is an old file or a target, the archive is gone, and every other file that is not a target keeps its data |
| `Export.RunExportCompletes` | packages/cli/src/export.ts:47-53 | when the release resolves, the download returns a path and its archive can be extracted, `runExport` completes, the archive is gone, and every entry is under `<outputDir>/mapbox-embed-vue` (for a URL ending in a file name) with its data |
| `Export.CleanupNeverFails` | packages/cli/src/export.ts:52 | `runExport` never throws from `unlinkSync` |
| `Export.Unzip` | packages/cli/src/export.ts:19-24 | extracts the archive into `join(dirname(zipPath), "mapbox-embed-vue")` |
| `Export.DownloadFile` | packages/cli/src/export.ts:26-45 | result and new state are those of `DownloadSpec` |
| `Export.RunExport` | packages/cli/src/export.ts:47-54 | outcome and new state are those of `RunExportSpec`: resolve, download, then extract and delete only when a path came back |
| `FileSystems.EnsureDir` | packages/cli/src/export.ts:32-34 | files are unchanged; a directory is added only when the path did not exist; afterwards the path exists when its parent is a directory |
| `FileSystems.EnsureDirIdempotent` | packages/cli/src/compile.ts:13-15 | creating a directory only if missing, twice, is the same as once |
| `FileSystems.UnlinkStep` | packages/cli/src/export.ts:52 | fails exactly when the file is missing; it removes exactly that file and keeps every other file and directory |
| `FileSystems.Extracted` | packages/cli/src/export.ts:22 | every archive entry is written below the destination with its data, and nothing else is |
| `FileSystems.StepsPreserveWellFormed` | packages/cli/src/export.ts:33-52 | mkdir, write, unlink and extraction never make a path both a file and a directory |
| `FileSystems.MkDirThenWrite` | packages/cli/src/export.ts:32-38 | once the output directory is made, writing a plain name inside it succeeds |
| `FileSystems.WriteThenUnlink` | packages/cli/src/export.ts:38-52 | writing a new file and unlinking it returns the file system to its old state |
| `FileSystems.ExtractionPlacesEntries` | packages/cli/src/export.ts:20-22 | extracting an archive that decodes succeeds exactly when nothing is in the way; then the destination is the only new directory, every entry is below it with its data, every file is an old file or a target, and every file that is not a target keeps its data |
| `FileSystems.FolderArchived` | packages/cli/src/compile.ts:22 | every file below the folder gets an entry named by its path inside the folder, holding its data |
| `FileSystems.FileSystem.MkDir` | packages/cli/src/export.ts:33 | new state per `MkDirStep` |
| `FileSystems.FileSystem.Write` | packages/cli/src/export.ts:38-39 | new state per `WriteStep` |
| `FileSystems.FileSystem.Unlink` | packages/cli/src/export.ts:52 | new state per `UnlinkStep` |
| `FileSystems.FileSystem.ExtractAll` | packages/cli/src/export.ts:20-22 | new state per `ExtractStep` |
| `Archives.FolderEntriesKeys` | packages/cli/src/compile.ts:22 | the entries added from a folder are exactly those named `src/<relative path>` of its files |
| `Archives.FolderEntriesPrefixed` | packages/cli/src/compile.ts:22 | every entry added from the folder lies under `src/` |
| `Archives.FolderEntriesValues` | packages/cli/src/compile.ts:22 | each file's entry holds that file's data |
| `Archives.RemoveSubtree` | packages/mapbox-embed-vue/src/cli/compile.ts:23 | `deleteFile` keeps exactly the entries outside the target's subtree, with unchanged data |
| `Archives.Zip.constructor` | packages/cli/src/compile.ts:17 | a new archive is empty |
| `Archives.Zip.AddFile` | packages/cli/src/compile.ts:26 | adds or replaces one entry |
| `Archives.Zip.AddLocalFolder` | packages/cli/src/compile.ts:22 | adds the folder's files one at a time; the result is the old entries plus `FolderEntries` |
| `Archives.Zip.DeleteFile` | packages/mapbox-embed-vue/src/cli/compile.ts:23-24 | the entries become `RemoveSubtree` of the old ones |
| `Manifests.Strip` | packages/cli/src/compile.ts:25 | never longer than the input |
| `Manifests.StripRemovesKeys` | packages/cli/src/compile.ts:25 | none of `packageManager`, `exports`, `main`, `module`, `bin`, `files`, `scripts` remains |
| `Manifests.StripMembers` | packages/cli/src/compile.ts:25 | a member is kept exactly when its key is not one of the seven, with the same value; nothing is added |
| `Manifests.StripKeepsOrder` | packages/cli/src/compile.ts:25 | the result is a subsequence of the input: relative order is kept |
| `Manifests.StripLookup` | packages/mapbox-embed-vue/src/cli/compile.ts:27 | reading any key of the result gives nothing for the seven keys and the input's value for every other key |
| `Manifests.StripIdempotent` | packages/cli/src/compile.ts:25 | stripping twice is stripping once |
| `Manifests.StripUniqueKeys` | packages/cli/src/compile.ts:25 | a manifest with one member per key stays so |
| `Manifests.SubsequenceUniqueKeys` | packages/cli/src/compile.ts:25 | a subsequence of a manifest with unique keys has unique keys |
| `Packaging.ManifestAtRoot` | packages/cli/src/compile.ts:26 | adding `package.json` to entries under `src/` gives the stripped manifest at `package.json` as the only root-level entry, other entries unchanged |
| `CliCompile.ArchiveLayout` | packages/cli/src/compile.ts:22-26 | the archive is exactly `src/<relative path>` for every listed file plus `package.json` with the stripped manifest; nothing is excluded; `package.json` is the only root-level entry |
| `CliCompile.ArchiveMirrorsFolder` | packages/cli/src/compile.ts:10-22 | every file below `../mapbox-embed-vue/src` is in the archive as `src/<its path inside>` with its data |
| `CliCompile.ArchiveRoundTrip` | packages/cli/src/compile.ts:10-28 | when the script wrote the archive and the zip format reads it back, extracting it into `dest` succeeds exactly when nothing is in the way, and then every file below the source folder is at `dest/src/<its path inside>` with its data, and the stripped manifest at `dest/package.json`; every other new file is one of those |
| `CliCompile.CompileEffects` | packages/cli/src/compile.ts:11-28 | `dist` is created only when missing; a missing source folder throws; otherwise the archive is written to `dist/mapbox-embed-vue.zip` exactly when that path can be written, and no other file changes |
| `CliCompile.Compile` | packages/cli/src/compile.ts:13-28 | outcome and new state are those of `CompileSpec` |
| `ComponentCompile.DeleteCliScriptRemovesNothing` | packages/mapbox-embed-vue/src/cli/compile.ts:22-24 | `deleteFile('cli.ts')` removes nothing, because every entry lies under `src/` when it runs |
| `ComponentCompile.ArchiveLayout` | packages/mapbox-embed-vue/src/cli/compile.ts:22-28 | the archive is exactly the folder's entries outside `src/cli`, unchanged, plus `package.json` with the stripped manifest; nothing in `src/cli` remains; `package.json` is the only root-level entry |
| `ComponentCompile.ArchiveMirrorsFolder` | packages/mapbox-embed-vue/src/cli/compile.ts:10-23 | every file of the source folder outside `cli/` is in the archive as `src/<its path inside>` with its data |
| `ComponentCompile.ArchiveRoundTrip` | packages/mapbox-embed-vue/src/cli/compile.ts:10-30 | the same round trip, for every file below the source folder outside `cli/`; every other new file is one of those, and no file under `dest/src/cli` appears that was not there before |
| `ComponentCompile.CompileEffects` | packages/mapbox-embed-vue/src/cli/compile.ts:11-30 | `exports` is created only when missing; a missing source folder throws; otherwise the archive is written to `exports/mapbox-embed-vue.zip` exactly when that path can be written, and no other file changes |
| `ComponentCompile.Compile` | packages/mapbox-embed-vue/src/cli/compile.ts:13-30 | outcome and new state are those of `CompileSpec` |

## Left out

- HTTP: `axios.get` and `fetch` are parameters. `api` is a function from URL to the release-index outcome, asked only for the fixed release-index URL, and `serve` is a function from URL to response. No status code is checked, as in the code.
- Streaming: piping the body into the file and awaiting `finished` is one write of the whole body. A body that fails mid-stream is not modelled. With `.pipe` the file stream would not be closed, and the wait would not settle.
- The zip format: `extractAllTo` decodes with the parameter `decode`, and `writeZip` encodes with `zipEncode`. Files are written below the destination. The model lets an extracted file replace an existing one. This is a simplification: `extractAllTo(destination)` leaves adm-zip's overwrite flag at its default, `false`. adm-zip's handling of existing files, directory entries and the creation of intermediate directories are not modelled.
- `Archives.RemoveSubtree`: this is an explicit assumption about adm-zip's `deleteFile`. The entry named `target` and every entry under `target + "/"` are removed. adm-zip's actual name lookup is not part of this model.
- Directory entries: `addLocalFolder` is modelled as adding only the folder's files. The folder walk is the parameter `listing`, and `ListsFolder` ties it to the disk.
- Serialisation: `Buffer.from(JSON.stringify(config, null, 2), 'utf8')` is the parameter `json`. JavaScript's reordering of integer-like keys is not modelled.
- Paths: `path.join` and `path.dirname` work on plain strings. Trailing `/`s of the output directory are dropped. `.`, `..` and repeated `/` inside a path are not normalised. `path.resolve` is the identity, and the empty path stands for the working directory or root.
- Permissions, disk-full and other operating-system errors are not modelled, beyond the missing-parent and file-versus-directory cases.
- Process effects: `console.log`, `console.error`, the usage text, `process.exit` and promise scheduling. The exit code is the returned integer.
- The component's `export.js`, imported by `index.ts`, is not part of this model. It is taken to be `packages/cli/src/export.ts`.
- `asset.name` typed as `string | string[]`: only string names are modelled.
- The Vue components, pages, router files, tests and build, lint and environment configuration are out of scope.
