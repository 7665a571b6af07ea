/**
  What the two compile scripts share: the archive layout (`src/...` plus a
  root `package.json`) and how a script run ends.
*/
module Packaging {
  import opened Paths
  import opened Archives
  import opened Manifests

  /** The root entry the trimmed manifest is written to. */
  const ManifestEntry: string := "package.json"

  /** The prefix `addLocalFolder(srcPath, 'src')` puts on every file of the source folder. */
  const SourcePrefix: string := "src"

  /** The archive's name inside the output directory. */
  const ArchiveName: string := "mapbox-embed-vue.zip"

  /**
    How a compile script ends: the archive was written; the source folder was
    missing, so `addLocalFolder` threw; or the archive could not be written to
    the output path.
  */
  datatype ScriptOutcome = Written | FolderNotFound | WriteFailed

  /** The entry `addFile('package.json', …)` writes: the manifest without the seven keys, serialised. */
  function ManifestData(manifest: Manifest, json: Manifest -> Bytes): Bytes {
    json(Strip(manifest))
  }

  /**
    Adding the manifest to entries that all lie under `src/` gives an archive
    whose only root-level entry is `package.json`, holding the serialised
    stripped manifest, with every other entry unchanged.
  */
  lemma {:induction false} ManifestAtRoot(entries: Archive, manifest: Manifest, json: Manifest -> Bytes)
    requires forall n :: n in entries ==> StartsWith(n, SourcePrefix + "/")
    ensures var a := entries[ManifestEntry := ManifestData(manifest, json)];
      && a.Keys == entries.Keys + {ManifestEntry}
      && a[ManifestEntry] == json(Strip(manifest))
      && (forall n :: n in entries ==> a[n] == entries[n])
      && (forall n :: n in a ==> n == ManifestEntry || StartsWith(n, SourcePrefix + "/"))
      && (forall n :: n in a && '/' !in n ==> n == ManifestEntry)
  {
    forall n | n in entries ensures n != ManifestEntry && '/' in n {
      assert n[3] == '/';
    }
  }
}
