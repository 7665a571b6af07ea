/**
  The component's own build script
  `packages/mapbox-embed-vue/src/cli/compile.ts`: like the one of the CLI
  package, but it deletes `src/cli` and `cli.ts` from the archive after adding
  the source folder, and writes to `exports/mapbox-embed-vue.zip`.

  adm-zip's `deleteFile` is taken to remove the named entry and every entry
  nested under it (Archives.RemoveSubtree).
*/
module ComponentCompile {
  import opened Wrappers
  import opened Paths
  import opened Archives
  import opened FileSystems
  import opened Manifests
  import opened Packaging

  const ComponentPath: string := "../mapbox-embed-vue"
  const SrcPath: Path := ComponentPath + "/src"
  const OutputPath: Path := "exports"
  const Output: Path := OutputPath + "/" + ArchiveName

  /** The two names the script deletes. */
  const CliFolderEntry: string := "src/cli"
  const CliScriptEntry: string := "cli.ts"

  /** The source folder's entries after both deletions. */
  function SourceEntries(listing: seq<LocalFile>): Archive {
    RemoveSubtree(RemoveSubtree(FolderEntries(SourcePrefix, listing), CliFolderEntry), CliScriptEntry)
  }

  /** The archive the script builds. */
  function PackageArchive(listing: seq<LocalFile>, manifest: Manifest, json: Manifest -> Bytes): Archive {
    SourceEntries(listing)[ManifestEntry := ManifestData(manifest, json)]
  }

  /** The whole script, from the state it starts in. */
  function CompileSpec(d: Disk, listing: seq<LocalFile>, manifest: Manifest, json: Manifest -> Bytes,
                       zipEncode: Archive -> Bytes): Run<ScriptOutcome>
  {
    var prepared := EnsureDir(d, OutputPath);
    if !IsDir(prepared, SrcPath) then Run(FolderNotFound, prepared)
    else
      var written := WriteStep(prepared, Output, zipEncode(PackageArchive(listing, manifest, json)));
      Run(if written.ok then Written else WriteFailed, written.disk)
  }

  /**
    `deleteFile('cli.ts')` removes nothing: when it runs every entry lies
    under `src/`, and `package.json` is added only afterwards.
  */
  lemma {:induction false} DeleteCliScriptRemovesNothing(listing: seq<LocalFile>)
    ensures SourceEntries(listing) == RemoveSubtree(FolderEntries(SourcePrefix, listing), CliFolderEntry)
  {
    var afterFolder := RemoveSubtree(FolderEntries(SourcePrefix, listing), CliFolderEntry);
    FolderEntriesPrefixed(SourcePrefix, listing);
    forall n | n in afterFolder ensures !InSubtree(n, CliScriptEntry) {
      assert n[..4] == "src/";
      OutsideSubtree(n, CliScriptEntry);
    }
  }

  /**
    The archive holds exactly the folder's entries outside `src/cli`, each
    unchanged, plus the stripped manifest as `package.json`; nothing named
    `src/cli` or nested under it remains, and `package.json` is the only
    root-level entry.
  */
  lemma {:induction false} ArchiveLayout(listing: seq<LocalFile>, manifest: Manifest, json: Manifest -> Bytes)
    ensures var a := PackageArchive(listing, manifest, json);
      var added := FolderEntries(SourcePrefix, listing);
      && a[ManifestEntry] == json(Strip(manifest))
      && (forall n :: n in a <==> n == ManifestEntry || (n in added && !InSubtree(n, CliFolderEntry)))
      && (forall n :: n in added && !InSubtree(n, CliFolderEntry) ==> a[n] == added[n])
      && (forall n :: n in a ==> !InSubtree(n, CliFolderEntry))
      && (forall n :: n in a ==> n == ManifestEntry || StartsWith(n, SourcePrefix + "/"))
      && (forall n :: n in a && '/' !in n ==> n == ManifestEntry)
  {
    DeleteCliScriptRemovesNothing(listing);
    FolderEntriesPrefixed(SourcePrefix, listing);
    ManifestAtRoot(SourceEntries(listing), manifest, json);
    OutsideSubtree(ManifestEntry, CliFolderEntry);
  }

  /**
    Every file below the source folder outside its `cli` folder is in the
    archive, renamed from `<srcPath>/x` to `src/x`, with its data.
  */
  lemma ArchiveMirrorsFolder(d: Disk, listing: seq<LocalFile>, manifest: Manifest, json: Manifest -> Bytes)
    requires ListsFolder(d, SrcPath, listing)
    ensures forall p :: p in d.files && StartsWith(p, SrcPath + "/") ==>
      var name := EntryName(SourcePrefix, p[|SrcPath| + 1..]);
      !InSubtree(name, CliFolderEntry) ==>
        name in PackageArchive(listing, manifest, json)
        && PackageArchive(listing, manifest, json)[name] == d.files[p]
  {
    FolderArchived(d, SrcPath, listing, SourcePrefix);
    ArchiveLayout(listing, manifest, json);
  }

  /**
    `exports` is created only when missing; without the source folder the
    script throws; otherwise the archive is written to
    `exports/mapbox-embed-vue.zip` unless that path cannot be written, and no
    other file changes.
  */
  lemma {:induction false} CompileEffects(d: Disk, listing: seq<LocalFile>, manifest: Manifest,
                                          json: Manifest -> Bytes, zipEncode: Archive -> Bytes)
    requires WellFormed(d)
    ensures var run := CompileSpec(d, listing, manifest, json, zipEncode);
      && (PathExists(d, OutputPath) ==> run.disk.dirs == d.dirs)
      && (!PathExists(d, OutputPath) ==> run.disk.dirs == d.dirs + {OutputPath})
      && (run.result == FolderNotFound <==> !IsDir(d, SrcPath))
      && (run.result == Written <==> IsDir(d, SrcPath) && OutputPath !in d.files && Output !in d.dirs)
      && (run.result == Written ==>
            run.disk.files == d.files[Output := zipEncode(PackageArchive(listing, manifest, json))])
      && (run.result != Written ==> run.disk.files == d.files)
  {
    assert Dirname(OutputPath) == "";
    assert Dirname(Output) == OutputPath by {
      JoinSplits(OutputPath, ArchiveName);
    }
    var prepared := EnsureDir(d, OutputPath);
    assert |OutputPath| < |Output| && |OutputPath| < |SrcPath|;
    assert IsDir(prepared, SrcPath) <==> IsDir(d, SrcPath);
    assert IsDir(prepared, OutputPath) <==> OutputPath !in d.files;
    assert IsDir(prepared, Output) <==> Output in d.dirs;
  }

  /**
    Archiving then extracting: once the script has written the archive and
    the zip format reads back what it wrote, extracting the archive into
    `dest` succeeds exactly when nothing there is in the way, and then puts
    every file below the source folder outside its `cli` folder at
    `dest/src/<its path inside the folder>` with its data, and the stripped
    manifest at `dest/package.json`.
  */
  lemma {:induction false} ArchiveRoundTrip(d: Disk, listing: seq<LocalFile>, manifest: Manifest, json: Manifest -> Bytes,
                                            zipEncode: Archive -> Bytes, decode: Bytes -> Option<Archive>, dest: Path)
    requires ListsFolder(d, SrcPath, listing)
    requires CompileSpec(d, listing, manifest, json, zipEncode).result == Written
    requires decode(zipEncode(PackageArchive(listing, manifest, json))) == Some(PackageArchive(listing, manifest, json))
    requires dest != ""
    ensures var built := CompileSpec(d, listing, manifest, json, zipEncode).disk;
      var extracted := ExtractStep(built, Output, dest, decode);
      && (extracted.ok <==> CanExtractTo(built, dest, PackageArchive(listing, manifest, json)))
      && (extracted.ok ==>
            && Target(dest, ManifestEntry) in extracted.disk.files
            && extracted.disk.files[Target(dest, ManifestEntry)] == json(Strip(manifest))
            && (forall p :: (&& p in d.files && StartsWith(p, SrcPath + "/")
                             && !InSubtree(EntryName(SourcePrefix, p[|SrcPath| + 1..]), CliFolderEntry)) ==>
                  && Target(dest, EntryName(SourcePrefix, p[|SrcPath| + 1..])) in extracted.disk.files
                  && extracted.disk.files[Target(dest, EntryName(SourcePrefix, p[|SrcPath| + 1..]))] == d.files[p])
            && (forall q :: q in extracted.disk.files && q !in built.files ==>
                  || q == Target(dest, ManifestEntry)
                  || exists p :: && p in d.files && StartsWith(p, SrcPath + "/")
                                 && !InSubtree(EntryName(SourcePrefix, p[|SrcPath| + 1..]), CliFolderEntry)
                                 && q == Target(dest, EntryName(SourcePrefix, p[|SrcPath| + 1..])))
            && (forall n :: InSubtree(n, CliFolderEntry) ==>
                  (Target(dest, n) in extracted.disk.files <==> Target(dest, n) in built.files)))
  {
    var a := PackageArchive(listing, manifest, json);
    var built := CompileSpec(d, listing, manifest, json, zipEncode).disk;
    var extracted := ExtractStep(built, Output, dest, decode);
    assert Output in built.files && built.files[Output] == zipEncode(a);
    forall n, m | m in a && Target(dest, m) == Target(dest, n) ensures m == n {
      TargetInjective(dest, m, n);
    }
    ArchiveLayout(listing, manifest, json);
    ArchiveMirrorsFolder(d, listing, manifest, json);
    ExtractionPlacesEntries(built, Output, dest, decode, a);
    FolderEntriesKeys(SourcePrefix, listing);
    if extracted.ok {
      forall q | q in extracted.disk.files && q !in built.files
        ensures || q == Target(dest, ManifestEntry)
                || exists p :: && p in d.files && StartsWith(p, SrcPath + "/")
                               && !InSubtree(EntryName(SourcePrefix, p[|SrcPath| + 1..]), CliFolderEntry)
                               && q == Target(dest, EntryName(SourcePrefix, p[|SrcPath| + 1..]))
      {
        var n :| n in a && q == Target(dest, n);
        if n != ManifestEntry {
          var i :| 0 <= i < |listing| && n == EntryName(SourcePrefix, listing[i].relative);
          ListedFileAt(d, SrcPath, listing, i);
        }
      }
    }
  }

  /** The script, step by step on the file system and on a fresh archive object. */
  method Compile(fs: FileSystem, listing: seq<LocalFile>, manifest: Manifest, json: Manifest -> Bytes,
                 zipEncode: Archive -> Bytes) returns (outcome: ScriptOutcome)
    modifies fs
    ensures Run(outcome, fs.State()) == CompileSpec(old(fs.State()), listing, manifest, json, zipEncode)
  {
    if !fs.Exists(OutputPath) {
      var made := fs.MkDir(OutputPath);
    }
    assert fs.State() == EnsureDir(old(fs.State()), OutputPath);
    var zip := new Zip();
    if !IsDir(fs.State(), SrcPath) {
      return FolderNotFound;
    }
    zip.AddLocalFolder(listing, SourcePrefix);
    assert zip.entries == FolderEntries(SourcePrefix, listing);
    zip.DeleteFile(CliFolderEntry);
    zip.DeleteFile(CliScriptEntry);
    assert zip.entries == SourceEntries(listing);
    var config := Strip(manifest);
    zip.AddFile(ManifestEntry, json(config));
    assert zip.entries == PackageArchive(listing, manifest, json);
    var written := fs.Write(Output, zipEncode(zip.entries));
    outcome := if written then Written else WriteFailed;
  }
}
