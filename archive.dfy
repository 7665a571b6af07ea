/**
  The in-memory zip archive of adm-zip, as both compile scripts drive it:
  entries by name, `addLocalFolder`, `addFile` and `deleteFile`.
*/
module Archives {
  import opened Paths

  type Byte = bv8
  type Bytes = seq<Byte>

  /** The contents of an archive: entry name to entry data. */
  type Archive = map<string, Bytes>

  /** One file found under a local folder: its path relative to that folder and its data. */
  datatype LocalFile = LocalFile(relative: string, data: Bytes)

  /** The name `addLocalFolder(folder, zipPath)` gives a file at `relative` inside `folder`. */
  function EntryName(zipPath: string, relative: string): string {
    zipPath + "/" + relative
  }

  /**
    The entries `addLocalFolder` adds for the files of a folder, in the order
    they are visited: a later file with the same name replaces an earlier one.
  */
  function FolderEntries(zipPath: string, files: seq<LocalFile>): Archive
    decreases |files|
  {
    if files == [] then map[]
    else
      var last := files[|files| - 1];
      FolderEntries(zipPath, files[..|files| - 1])[EntryName(zipPath, last.relative) := last.data]
  }

  lemma {:induction false} FolderEntriesKeys(zipPath: string, files: seq<LocalFile>)
    ensures forall name :: name in FolderEntries(zipPath, files) <==>
      exists i :: 0 <= i < |files| && name == EntryName(zipPath, files[i].relative)
    decreases |files|
  {
    if files != [] {
      var init := files[..|files| - 1];
      FolderEntriesKeys(zipPath, init);
      forall name ensures name in FolderEntries(zipPath, files) <==>
        exists i :: 0 <= i < |files| && name == EntryName(zipPath, files[i].relative)
      {
        if name in FolderEntries(zipPath, init) {
          var i :| 0 <= i < |init| && name == EntryName(zipPath, init[i].relative);
          assert files[i] == init[i];
        }
        if exists i :: 0 <= i < |files| && name == EntryName(zipPath, files[i].relative) {
          var i :| 0 <= i < |files| && name == EntryName(zipPath, files[i].relative);
          if i < |init| {
            assert files[i] == init[i];
          }
        }
      }
    }
  }

  /** Every entry added from a local folder lies under `zipPath + "/"`. */
  lemma FolderEntriesPrefixed(zipPath: string, files: seq<LocalFile>)
    ensures forall name :: name in FolderEntries(zipPath, files) ==> StartsWith(name, zipPath + "/")
  {
    FolderEntriesKeys(zipPath, files);
    forall name | name in FolderEntries(zipPath, files)
      ensures StartsWith(name, zipPath + "/")
    {
      var i :| 0 <= i < |files| && name == EntryName(zipPath, files[i].relative);
      assert name[..|zipPath + "/"|] == zipPath + "/";
    }
  }

  /**
    When files with the same relative path carry the same data (as they do
    when they are read from one folder), every file's entry holds its data.
  */
  lemma {:induction false} FolderEntriesValues(zipPath: string, files: seq<LocalFile>)
    requires forall i, j :: 0 <= i < |files| && 0 <= j < |files| && files[i].relative == files[j].relative
               ==> files[i].data == files[j].data
    ensures forall i :: 0 <= i < |files| ==>
      EntryName(zipPath, files[i].relative) in FolderEntries(zipPath, files)
      && FolderEntries(zipPath, files)[EntryName(zipPath, files[i].relative)] == files[i].data
    decreases |files|
  {
    if files != [] {
      var init := files[..|files| - 1];
      var last := files[|files| - 1];
      FolderEntriesValues(zipPath, init);
      forall i | 0 <= i < |files|
        ensures EntryName(zipPath, files[i].relative) in FolderEntries(zipPath, files)
        ensures FolderEntries(zipPath, files)[EntryName(zipPath, files[i].relative)] == files[i].data
      {
        if i < |init| {
          assert files[i] == init[i];
          if EntryName(zipPath, files[i].relative) == EntryName(zipPath, last.relative) {
            assert files[i].relative == EntryName(zipPath, files[i].relative)[|zipPath| + 1..];
          }
        }
      }
    }
  }

  /**
    An entry lies in the subtree `target` when it is named `target` or lies
    under `target + "/"`. This is the rule assumed for adm-zip's `deleteFile`,
    which also removes the entries nested below a removed directory.
  */
  predicate InSubtree(name: string, target: string) {
    name == target || StartsWith(name, target + "/")
  }

  /** Names that start with different characters never lie in each other's subtree. */
  lemma OutsideSubtree(name: string, target: string)
    requires name != "" && target != "" && name[0] != target[0]
    ensures !InSubtree(name, target)
  {
  }

  /** The archive once `deleteFile(target)` has run. */
  function RemoveSubtree(entries: Archive, target: string): (r: Archive)
    ensures forall name :: name in r <==> name in entries && !InSubtree(name, target)
    ensures forall name :: name in r ==> r[name] == entries[name]
  {
    map name | name in entries && !InSubtree(name, target) :: entries[name]
  }

  /**
    The archive object of adm-zip: `new AdmZip()` starts it empty and each call
    changes its entries in place.
  */
  class Zip {
    var entries: Archive

    constructor ()
      ensures entries == map[]
    {
      entries := map[];
    }

    /** `addFile(name, data)`: adds the entry, or replaces the one of that name. */
    method AddFile(name: string, data: Bytes)
      modifies this
      ensures entries == old(entries)[name := data]
    {
      entries := entries[name := data];
    }

    /** `addLocalFolder(folder, zipPath)`: adds each file of the folder under `zipPath`, one at a time. */
    method AddLocalFolder(files: seq<LocalFile>, zipPath: string)
      modifies this
      ensures entries == old(entries) + FolderEntries(zipPath, files)
    {
      var i := 0;
      while i < |files|
        invariant 0 <= i <= |files|
        invariant entries == old(entries) + FolderEntries(zipPath, files[..i])
      {
        assert files[..i + 1][..i] == files[..i];
        AddFile(EntryName(zipPath, files[i].relative), files[i].data);
        i := i + 1;
      }
      assert files[..i] == files;
    }

    /** `deleteFile(target)`: removes the entry `target` and everything nested under it. */
    method DeleteFile(target: string)
      modifies this
      ensures entries == RemoveSubtree(old(entries), target)
    {
      entries := RemoveSubtree(entries, target);
    }
  }
}
