/**
  The build script `packages/cli/src/compile.ts`: archive the component's
  `src` folder under `src/`, add the trimmed manifest as `package.json`, and
  write the archive to `dist/mapbox-embed-vue.zip`. It deletes nothing.

  The script's inputs are parameters: `listing` is what adm-zip finds when it
  walks the source folder, `manifest` the imported `package.json`, `json`
  the serialisation `Buffer.from(JSON.stringify(config, null, 2), 'utf8')`
  and `zipEncode` the zip format `writeZip` produces.
*/
module CliCompile {
  import opened Wrappers
  import opened Paths
  import opened Archives
  import opened FileSystems
  import opened Manifests
  import opened Packaging

  const ComponentPath: string := "../mapbox-embed-vue"
  const SrcPath: Path := ComponentPath + "/src"
  const OutputPath: Path := "dist"
  const Output: Path := OutputPath + "/" + ArchiveName

  /** The archive the script builds. */
  function PackageArchive(listing: seq<LocalFile>, manifest: Manifest, json: Manifest -> Bytes): Archive {
    FolderEntries(SourcePrefix, listing)[ManifestEntry := ManifestData(manifest, json)]
  }

  /** The whole script, from the state it starts in. */
  function CompileSpec(d: Disk, listing: seq<LocalFile>, manifest: Manifest, json: Manifest -> Bytes,
                       zipEncode: Archive -> Bytes): Run<ScriptOutcome>
  {
    var prepared := EnsureDir(d, OutputPath);
    if !IsDir(prepared, SrcPath) then Run(FolderNotFound, prepared)
    else
      var written := WriteStep(prepared, Output, zipEncode(PackageArchive(listing, manifest, json)));
      Run(if written.ok then Written else WriteFailed, written.disk)
  }

  /**
    The archive holds every listed file under `src/` and the stripped manifest
    as `package.json`, and nothing else: no file of the folder is left out.
  */
  lemma {:induction false} ArchiveLayout(listing: seq<LocalFile>, manifest: Manifest, json: Manifest -> Bytes)
    ensures var a := PackageArchive(listing, manifest, json);
      && a[ManifestEntry] == json(Strip(manifest))
      && (forall i :: 0 <= i < |listing| ==> EntryName(SourcePrefix, listing[i].relative) in a)
      && (forall n :: n in a <==>
            (n == ManifestEntry || exists i :: 0 <= i < |listing| && n == EntryName(SourcePrefix, listing[i].relative)))
      && (forall n :: n in a ==> n == ManifestEntry || StartsWith(n, SourcePrefix + "/"))
      && (forall n :: n in a && '/' !in n ==> n == ManifestEntry)
  {
    FolderEntriesKeys(SourcePrefix, listing);
    FolderEntriesPrefixed(SourcePrefix, listing);
    ManifestAtRoot(FolderEntries(SourcePrefix, listing), manifest, json);
  }

  /** Every file below the source folder is in the archive, renamed from `<srcPath>/x` to `src/x`, with its data. */
  lemma ArchiveMirrorsFolder(d: Disk, listing: seq<LocalFile>, manifest: Manifest, json: Manifest -> Bytes)
    requires ListsFolder(d, SrcPath, listing)
    ensures forall p :: p in d.files && StartsWith(p, SrcPath + "/") ==>
      var name := EntryName(SourcePrefix, p[|SrcPath| + 1..]);
      name in PackageArchive(listing, manifest, json)
      && PackageArchive(listing, manifest, json)[name] == d.files[p]
  {
    FolderArchived(d, SrcPath, listing, SourcePrefix);
    FolderEntriesPrefixed(SourcePrefix, listing);
    ManifestAtRoot(FolderEntries(SourcePrefix, listing), manifest, json);
  }

  /**
    `dist` is created only when missing; without the source folder the script
    throws; otherwise the archive is written to `dist/mapbox-embed-vue.zip`
    unless that path cannot be written, and no other file changes.
  */
  lemma {:induction false} CompileEffects(d: Disk, listing: seq<LocalFile>, manifest: Manifest,
                                          json: Manifest -> Bytes, zipEncode: Archive -> Bytes)
    requires WellFormed(d)
    ensures var run := CompileSpec(d, listing, manifest, json, zipEncode);
      && (PathExists(d, OutputPath) ==> run.disk.dirs == d.dirs)
      && (!PathExists(d, OutputPath) ==> run.disk.dirs == d.dirs + {OutputPath})
      && (run.result == FolderNotFound <==> !IsDir(d, SrcPath))
      && (run.result == Written <==> IsDir(d, SrcPath) && OutputPath !in d.files && Output !in d.dirs)
      && (run.result == Written ==>
            run.disk.files == d.files[Output := zipEncode(PackageArchive(listing, manifest, json))])
      && (run.result != Written ==> run.disk.files == d.files)
  {
    assert Dirname(OutputPath) == "";
    assert Dirname(Output) == OutputPath by {
      JoinSplits(OutputPath, ArchiveName);
    }
    var prepared := EnsureDir(d, OutputPath);
    assert |OutputPath| < |Output| && |OutputPath| < |SrcPath|;
    assert IsDir(prepared, SrcPath) <==> IsDir(d, SrcPath);
    assert IsDir(prepared, OutputPath) <==> OutputPath !in d.files;
    assert IsDir(prepared, Output) <==> Output in d.dirs;
  }

  /**
    Archiving then extracting: once the script has written the archive and
    the zip format reads back what it wrote, extracting the archive into
    `dest` succeeds exactly when nothing there is in the way, and then puts
    every file below the source folder at `dest/src/<its path inside the folder>` with its
    data, and the stripped manifest at `dest/package.json`.
  */
  lemma {:induction false} ArchiveRoundTrip(d: Disk, listing: seq<LocalFile>, manifest: Manifest, json: Manifest -> Bytes,
                                            zipEncode: Archive -> Bytes, decode: Bytes -> Option<Archive>, dest: Path)
    requires ListsFolder(d, SrcPath, listing)
    requires CompileSpec(d, listing, manifest, json, zipEncode).result == Written
    requires decode(zipEncode(PackageArchive(listing, manifest, json))) == Some(PackageArchive(listing, manifest, json))
    requires dest != ""
    ensures var built := CompileSpec(d, listing, manifest, json, zipEncode).disk;
      var extracted := ExtractStep(built, Output, dest, decode);
      && (extracted.ok <==> CanExtractTo(built, dest, PackageArchive(listing, manifest, json)))
      && (extracted.ok ==>
            && Target(dest, ManifestEntry) in extracted.disk.files
            && extracted.disk.files[Target(dest, ManifestEntry)] == json(Strip(manifest))
            && (forall p :: p in d.files && StartsWith(p, SrcPath + "/") ==>
                  && Target(dest, EntryName(SourcePrefix, p[|SrcPath| + 1..])) in extracted.disk.files
                  && extracted.disk.files[Target(dest, EntryName(SourcePrefix, p[|SrcPath| + 1..]))] == d.files[p])
            && (forall q :: q in extracted.disk.files && q !in built.files ==>
                  || q == Target(dest, ManifestEntry)
                  || exists p :: && p in d.files && StartsWith(p, SrcPath + "/")
                                 && q == Target(dest, EntryName(SourcePrefix, p[|SrcPath| + 1..]))))
  {
    var a := PackageArchive(listing, manifest, json);
    var built := CompileSpec(d, listing, manifest, json, zipEncode).disk;
    var extracted := ExtractStep(built, Output, dest, decode);
    assert Output in built.files && built.files[Output] == zipEncode(a);
    ArchiveLayout(listing, manifest, json);
    ArchiveMirrorsFolder(d, listing, manifest, json);
    ExtractionPlacesEntries(built, Output, dest, decode, a);
    if extracted.ok {
      forall q | q in extracted.disk.files && q !in built.files
        ensures || q == Target(dest, ManifestEntry)
                || exists p :: && p in d.files && StartsWith(p, SrcPath + "/")
                               && q == Target(dest, EntryName(SourcePrefix, p[|SrcPath| + 1..]))
      {
        var n :| n in a && q == Target(dest, n);
        if n != ManifestEntry {
          var i :| 0 <= i < |listing| && n == EntryName(SourcePrefix, listing[i].relative);
          ListedFileAt(d, SrcPath, listing, i);
        }
      }
    }
  }

  /** The script, step by step on the file system and on a fresh archive object. */
  method Compile(fs: FileSystem, listing: seq<LocalFile>, manifest: Manifest, json: Manifest -> Bytes,
                 zipEncode: Archive -> Bytes) returns (outcome: ScriptOutcome)
    modifies fs
    ensures Run(outcome, fs.State()) == CompileSpec(old(fs.State()), listing, manifest, json, zipEncode)
  {
    if !fs.Exists(OutputPath) {
      var made := fs.MkDir(OutputPath);
    }
    assert fs.State() == EnsureDir(old(fs.State()), OutputPath);
    var zip := new Zip();
    if !IsDir(fs.State(), SrcPath) {
      return FolderNotFound;
    }
    zip.AddLocalFolder(listing, SourcePrefix);
    assert zip.entries == FolderEntries(SourcePrefix, listing);
    var config := Strip(manifest);
    zip.AddFile(ManifestEntry, json(config));
    assert zip.entries == PackageArchive(listing, manifest, json);
    var written := fs.Write(Output, zipEncode(zip.entries));
    outcome := if written then Written else WriteFailed;
  }
}
