/**
  The part of the file system the CLI touches, as an abstract state: a set of
  directories and a map from file path to contents. The empty path is the
  working directory (or the root) and always exists.

  Each operation is given first as a function from the old state to its
  outcome and new state, then as a method of the class `FileSystem` that
  changes the state in place as that function says.
*/
module FileSystems {
  import opened Wrappers
  import opened Paths
  import opened Archives

  datatype Disk = Disk(dirs: set<Path>, files: map<Path, Bytes>)

  /** What a composite operation yields and the state it leaves. */
  datatype Run<+T> = Run(result: T, disk: Disk)

  /** What an operation reports (`false`: it threw) and the state it leaves. */
  datatype Step = Step(ok: bool, disk: Disk)

  predicate IsDir(d: Disk, p: Path) {
    p == "" || p in d.dirs
  }

  /** `fs.existsSync(p)`. */
  predicate PathExists(d: Disk, p: Path) {
    IsDir(d, p) || p in d.files
  }

  /** No path is both a directory and a file, and the working directory is not a file. */
  predicate WellFormed(d: Disk) {
    d.dirs !! d.files.Keys && "" !in d.dirs && "" !in d.files
  }

  /** `fs.mkdirSync(p)` (not recursive): fails when `p` exists or its parent is not a directory. */
  function MkDirStep(d: Disk, p: Path): Step {
    if !PathExists(d, p) && IsDir(d, Dirname(p)) then Step(true, d.(dirs := d.dirs + {p}))
    else Step(false, d)
  }

  /**
    Opening `p` for writing (`createWriteStream(p, { flags: 'w' })`, and
    adm-zip's `writeZip(p)`) and writing `data` to it: fails when `p` is a
    directory or its parent is not one; otherwise creates or truncates the
    file and leaves `data` in it.
  */
  function WriteStep(d: Disk, p: Path, data: Bytes): Step {
    if !IsDir(d, p) && IsDir(d, Dirname(p)) then Step(true, d.(files := d.files[p := data]))
    else Step(false, d)
  }

  /** `fs.unlinkSync(p)`: removes the file `p`; fails when there is no such file. */
  function UnlinkStep(d: Disk, p: Path): (s: Step)
    ensures s.ok <==> p in d.files
    ensures s.disk.dirs == d.dirs
    ensures s.disk.files.Keys == d.files.Keys - {p}
    ensures forall q :: q in s.disk.files ==> s.disk.files[q] == d.files[q]
  {
    if p in d.files then Step(true, d.(files := d.files - {p})) else Step(false, d)
  }

  /** The path at which extracting entry `name` into `dest` writes it. */
  function Target(dest: Path, name: string): Path {
    Join(dest, name)
  }

  lemma TargetInjective(dest: Path, n1: string, n2: string)
    requires dest != ""
    requires Target(dest, n1) == Target(dest, n2)
    ensures n1 == n2
  {
    if n1 != "" && n2 != "" {
      assert n1 == Target(dest, n1)[|dest| + 1..];
    }
  }

  /** The files extraction of `a` into `dest` writes, by path. */
  function Extracted(dest: Path, a: Archive): (m: map<Path, Bytes>)
    requires dest != ""
    ensures forall n :: n in a ==> Target(dest, n) in m && m[Target(dest, n)] == a[n]
    ensures forall p :: p in m ==> exists n :: n in a && p == Target(dest, n)
  {
    forall n1, n2 | n1 in a && n2 in a && Target(dest, n1) == Target(dest, n2) ensures n1 == n2 {
      TargetInjective(dest, n1, n2);
    }
    map n | n in a :: Target(dest, n) := a[n]
  }

  /** Extraction cannot place a file where a directory is, nor create `dest` where a file is. */
  predicate CanExtractTo(d: Disk, dest: Path, a: Archive) {
    dest !in d.files && forall n :: n in a ==> Target(dest, n) !in d.dirs && Target(dest, n) != dest
  }

  /**
    `new AdmZip(zipPath).extractAllTo(dest)`: reads the archive at `zipPath`
    (`decode` stands for the zip format; `None` is a corrupt archive), creates
    `dest` and writes every entry below it, replacing files already there.
  */
  function ExtractStep(d: Disk, zipPath: Path, dest: Path, decode: Bytes -> Option<Archive>): Step
    requires dest != ""
  {
    if zipPath !in d.files then Step(false, d)
    else match decode(d.files[zipPath])
      case None => Step(false, d)
      case Some(a) =>
        if CanExtractTo(d, dest, a) then Step(true, Disk(d.dirs + {dest}, d.files + Extracted(dest, a)))
        else Step(false, d)
  }

  /**
    A successful extraction of an archive that decodes to `a` adds `dest` as
    the only new directory, puts every entry `n` at `Target(dest, n)` with
    the entry's data, writes no other file and leaves every other file as it was.
  */
  lemma ExtractionPlacesEntries(d: Disk, zipPath: Path, dest: Path, decode: Bytes -> Option<Archive>, a: Archive)
    requires dest != "" && zipPath in d.files && decode(d.files[zipPath]) == Some(a)
    ensures ExtractStep(d, zipPath, dest, decode).ok <==> CanExtractTo(d, dest, a)
    ensures var s := ExtractStep(d, zipPath, dest, decode);
      s.ok ==>
        && s.disk.dirs == d.dirs + {dest}
        && (forall n :: n in a ==> Target(dest, n) in s.disk.files && s.disk.files[Target(dest, n)] == a[n])
        && (forall q :: q in s.disk.files ==> q in d.files || exists n :: n in a && q == Target(dest, n))
        && (forall q :: q in d.files && (forall n :: n in a ==> q != Target(dest, n)) ==>
              q in s.disk.files && s.disk.files[q] == d.files[q])
  {
  }

  /** Every operation keeps a well-formed state well-formed. */
  lemma {:induction false} StepsPreserveWellFormed(d: Disk, p: Path, data: Bytes, dest: Path,
                                                   decode: Bytes -> Option<Archive>)
    requires WellFormed(d) && dest != ""
    ensures WellFormed(MkDirStep(d, p).disk)
    ensures WellFormed(WriteStep(d, p, data).disk)
    ensures WellFormed(UnlinkStep(d, p).disk)
    ensures WellFormed(ExtractStep(d, p, dest, decode).disk)
  {
    var s := ExtractStep(d, p, dest, decode);
    if s.ok {
      var a := decode(d.files[p]).value;
      var e := Extracted(dest, a);
      forall q | q in e ensures q !in s.disk.dirs && q != "" {
        var n :| n in a && q == Target(dest, n);
      }
    }
  }

  /** `if (!fs.existsSync(p)) fs.mkdirSync(p)`: the state once `p` has been made to exist. */
  function EnsureDir(d: Disk, p: Path): (e: Disk)
    ensures e.files == d.files
    ensures IsDir(d, Dirname(p)) ==> PathExists(e, p)
    ensures PathExists(d, p) ==> e == d
    ensures !PathExists(d, p) && IsDir(d, Dirname(p)) ==> e.dirs == d.dirs + {p}
  {
    if PathExists(d, p) then d else MkDirStep(d, p).disk
  }

  /** Making sure a directory exists a second time changes nothing. */
  lemma EnsureDirIdempotent(d: Disk, p: Path)
    ensures EnsureDir(EnsureDir(d, p), p) == EnsureDir(d, p)
  {
  }

  /**
    `listing` is what walking the folder `folder` finds: every listed file is
    on disk with its data, and every file below `folder` is listed.
  */
  ghost predicate ListsFolder(d: Disk, folder: Path, listing: seq<LocalFile>) {
    && folder != ""
    && (forall i :: 0 <= i < |listing| ==>
          && listing[i].relative != ""
          && Join(folder, listing[i].relative) in d.files
          && d.files[Join(folder, listing[i].relative)] == listing[i].data)
    && (forall p :: p in d.files && StartsWith(p, folder + "/") ==>
          exists i :: 0 <= i < |listing| && p == Join(folder, listing[i].relative))
  }

  /** The listed file `i` is the file at `<folder>/<its relative path>`, below the folder. */
  lemma ListedFileAt(d: Disk, folder: Path, listing: seq<LocalFile>, i: int)
    requires ListsFolder(d, folder, listing) && 0 <= i < |listing|
    ensures var p := Join(folder, listing[i].relative);
      p in d.files && StartsWith(p, folder + "/") && p[|folder| + 1..] == listing[i].relative
  {
    var p := Join(folder, listing[i].relative);
    assert p == folder + "/" + listing[i].relative;
    assert p[..|folder| + 1] == folder + "/";
  }

  /**
    Adding a folder to an archive under `zipPath` gives every file below the
    folder an entry named `zipPath + "/" + <its path inside the folder>`
    holding the file's data.
  */
  lemma FolderArchived(d: Disk, folder: Path, listing: seq<LocalFile>, zipPath: string)
    requires ListsFolder(d, folder, listing)
    ensures forall p :: p in d.files && StartsWith(p, folder + "/") ==>
      var name := EntryName(zipPath, p[|folder| + 1..]);
      name in FolderEntries(zipPath, listing) && FolderEntries(zipPath, listing)[name] == d.files[p]
  {
    FolderEntriesValues(zipPath, listing);
    forall p | p in d.files && StartsWith(p, folder + "/")
      ensures var name := EntryName(zipPath, p[|folder| + 1..]);
        name in FolderEntries(zipPath, listing) && FolderEntries(zipPath, listing)[name] == d.files[p]
    {
      var i :| 0 <= i < |listing| && p == Join(folder, listing[i].relative);
      assert p[|folder| + 1..] == listing[i].relative;
    }
  }

  /** Creating the missing parent makes a write to a plain name inside it succeed. */
  lemma MkDirThenWrite(d: Disk, dir: Path, name: string, data: Bytes)
    requires name != "" && '/' !in name
    requires MkDirStep(d, dir).ok && Join(dir, name) !in d.dirs
    ensures WriteStep(MkDirStep(d, dir).disk, Join(dir, name), data).ok
  {
    JoinSplits(dir, name);
    var p := Join(dir, name);
    assert |p| > |dir|;
  }

  /** A file written and then unlinked leaves the state as it was, if the file did not exist before. */
  lemma WriteThenUnlink(d: Disk, p: Path, data: Bytes)
    requires p !in d.files
    requires WriteStep(d, p, data).ok
    ensures UnlinkStep(WriteStep(d, p, data).disk, p) == Step(true, d)
  {
    assert d.files[p := data] - {p} == d.files;
  }

  /**
    The state as the class keeps it: `dirs` and `files` change in place, and
    each method's new state is the one its Step function gives.
  */
  class FileSystem {
    var dirs: set<Path>
    var files: map<Path, Bytes>

    function State(): Disk
      reads this
    {
      Disk(dirs, files)
    }

    constructor (initial: Disk)
      ensures State() == initial
    {
      dirs := initial.dirs;
      files := initial.files;
    }

    /** `fs.existsSync(p)`. */
    function Exists(p: Path): bool
      reads this
    {
      PathExists(State(), p)
    }

    /** `fs.mkdirSync(p)`. */
    method MkDir(p: Path) returns (ok: bool)
      modifies this
      ensures Step(ok, State()) == MkDirStep(old(State()), p)
    {
      var s := MkDirStep(State(), p);
      ok := s.ok;
      if ok {
        dirs := dirs + {p};
      }
    }

    /** Opens `p` for writing and writes `data` to it. */
    method Write(p: Path, data: Bytes) returns (ok: bool)
      modifies this
      ensures Step(ok, State()) == WriteStep(old(State()), p, data)
    {
      ok := !IsDir(State(), p) && IsDir(State(), Dirname(p));
      if ok {
        files := files[p := data];
      }
    }

    /** `fs.unlinkSync(p)`. */
    method Unlink(p: Path) returns (ok: bool)
      modifies this
      ensures Step(ok, State()) == UnlinkStep(old(State()), p)
    {
      ok := p in files;
      if ok {
        files := files - {p};
      }
    }

    /** `new AdmZip(zipPath).extractAllTo(dest)`. */
    method ExtractAll(zipPath: Path, dest: Path, decode: Bytes -> Option<Archive>) returns (ok: bool)
      requires dest != ""
      modifies this
      ensures Step(ok, State()) == ExtractStep(old(State()), zipPath, dest, decode)
    {
      var s := ExtractStep(State(), zipPath, dest, decode);
      ok := s.ok;
      if ok {
        dirs := s.disk.dirs;
        files := s.disk.files;
      }
    }
  }
}
