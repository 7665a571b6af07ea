/**
  The release fetcher of `packages/cli/src/export.ts`: resolve the download
  URL of the newest release asset, download it into the output directory,
  extract it next to the download and delete the download.

  The network is a parameter: `api` answers `axios.get(url)` (only ever asked
  for `ReleaseDataUrl`) and `serve` answers `fetch(url)` for every URL.
*/
module Export {
  import opened Wrappers
  import opened Paths
  import opened Archives
  import opened FileSystems

  const PackageName: string := "mapbox-embed-vue"
  const ReleaseDataUrl: string := "https://api.github.com/repos/mxwllstn/mapbox-embed-vue/releases/latest"

  /** One entry of the release's `assets` list. */
  datatype Asset = Asset(name: string, browserDownloadUrl: string)

  /** The outcome of `axios.get(url)`: a rejected request, or the release's assets. */
  datatype ReleaseIndex = IndexUnavailable | Release(assets: seq<Asset>)

  /** The outcome of `fetch(url)`: a rejected fetch, or a response that may lack a body. */
  datatype Response = FetchRejected | Response(body: Option<Bytes>)

  /** Why `runExport` throws. */
  datatype Failure =
    | IndexRequestFailed   // the release-index request rejected
    | NoMatchingAsset      // `release` is undefined, so reading its URL throws
    | FetchFailed          // `fetch` rejected, outside the `try`
    | ExtractionFailed     // adm-zip could not read or extract the archive
    | UnlinkFailed         // `unlinkSync` found no file

  /** How `runExport` settles. */
  datatype Outcome = Completed | Threw(failure: Failure)

  /** Asset `i` is the first, in list order, whose name contains `name`. */
  ghost predicate FirstMatch(assets: seq<Asset>, name: string, i: int) {
    0 <= i < |assets| && Contains(assets[i].name, name)
    && forall j :: 0 <= j < i ==> !Contains(assets[j].name, name)
  }

  /** `assets.find(asset => asset.name.includes(name))`. */
  function Find(assets: seq<Asset>, name: string): (r: Option<Asset>)
    ensures r.None? <==> forall j :: 0 <= j < |assets| ==> !Contains(assets[j].name, name)
    ensures r.Some? ==> exists i :: FirstMatch(assets, name, i) && assets[i] == r.value
    decreases |assets|
  {
    if assets == [] then None
    else if Contains(assets[0].name, name) then Some(assets[0])
    else
      var r := Find(assets[1..], name);
      assert r.Some? ==> exists i :: FirstMatch(assets, name, i) && assets[i] == r.value by {
        if r.Some? {
          var i :| FirstMatch(assets[1..], name, i) && assets[1..][i] == r.value;
          assert FirstMatch(assets, name, i + 1);
        }
      }
      assert r.None? ==> forall j :: 0 <= j < |assets| ==> !Contains(assets[j].name, name) by {
        if r.None? {
          forall j | 0 < j < |assets| ensures !Contains(assets[j].name, name) {
            assert assets[j] == assets[1..][j - 1];
          }
        }
      }
      r
  }

  /** `getReleaseUrl()`, given what `axios.get(ReleaseDataUrl)` yields: the download URL of the first asset whose name contains the package name. */
  function GetReleaseUrl(index: ReleaseIndex): (r: Result<string, Failure>)
    ensures index.IndexUnavailable? ==> r == Err(IndexRequestFailed)
    ensures index.Release? ==>
      (r.Ok? <==> exists i :: 0 <= i < |index.assets| && Contains(index.assets[i].name, PackageName))
    ensures index.Release? && r.Err? ==> r.error == NoMatchingAsset
    ensures r.Ok? ==> exists i :: FirstMatch(index.assets, PackageName, i)
                                  && index.assets[i].browserDownloadUrl == r.value
  {
    match index
    case IndexUnavailable => Err(IndexRequestFailed)
    case Release(assets) =>
      match Find(assets, PackageName)
      case None => Err(NoMatchingAsset)
      case Some(asset) => Ok(asset.browserDownloadUrl)
  }

  /** `filename || url.split('/').pop() || ''`: a non-empty explicit name, else the URL's last segment. */
  function Filename(filename: Option<string>, url: string): (r: string)
    ensures filename.Some? && filename.value != "" ==> r == filename.value
    ensures filename.None? || filename.value == "" ==>
      && '/' !in r && |r| <= |url| && r == url[|url| - |r|..]
      && (|r| < |url| ==> url[|url| - |r| - 1] == '/')
  {
    if filename.Some? && filename.value != "" then filename.value else LastSegment(url)
  }

  /** `path.join(path.dirname(zipPath), packageName)`. */
  function UnzipDestination(zipPath: Path): (dest: Path)
    ensures dest != ""
  {
    Join(Dirname(zipPath), PackageName)
  }

  /** The archive is extracted next to where it was downloaded, into a directory named after the package. */
  lemma UnzipNextToDownload(outputDir: Path, filename: string)
    requires filename != "" && '/' !in filename
    ensures UnzipDestination(Join(outputDir, filename)) == Join(outputDir, PackageName)
  {
    JoinSplits(outputDir, filename);
  }

  /**
    `downloadFile(url, outputDir, filename)`: `None` stands for the
    `undefined` it returns when the response has no body or when creating
    the directory or writing the file fails (the error is caught there).
    `existsSync`, `mkdirSync` and `path.join` all read `outputDir` without
    its trailing `/`s.
  */
  function DownloadSpec(d: Disk, url: string, outputDir: Path, filename: Option<string>,
                        response: Response): Run<Result<Option<Path>, Failure>>
  {
    match response
    case FetchRejected => Run(Err(FetchFailed), d)
    case Response(None) => Run(Ok(None), d)
    case Response(Some(body)) =>
      var dir := TrimTrailingSlashes(outputDir);
      var made := if PathExists(d, dir) then Step(true, d) else MkDirStep(d, dir);
      if !made.ok then Run(Ok(None), d)
      else
        var destination := Join(dir, Filename(filename, url));
        var written := WriteStep(made.disk, destination, body);
        if written.ok then Run(Ok(Some(destination)), written.disk) else Run(Ok(None), made.disk)
  }

  /** `runExport(outputDir)`. */
  function RunExportSpec(d: Disk, outputDir: Path, api: string -> ReleaseIndex, serve: string -> Response,
                         decode: Bytes -> Option<Archive>): Run<Outcome>
  {
    match GetReleaseUrl(api(ReleaseDataUrl))
    case Err(e) => Run(Threw(e), d)
    case Ok(url) =>
      var download := DownloadSpec(d, url, outputDir, None, serve(url));
      match download.result
      case Err(e) => Run(Threw(e), download.disk)
      case Ok(None) => Run(Completed, download.disk)
      case Ok(Some(zipPath)) => FinishSpec(download.disk, zipPath, decode)
  }

  /** `unzip(zipPath)` followed by `fs.unlinkSync(zipPath)`. */
  function FinishSpec(d: Disk, zipPath: Path, decode: Bytes -> Option<Archive>): (r: Run<Outcome>)
    ensures r.result in {Completed, Threw(ExtractionFailed), Threw(UnlinkFailed)}
    ensures r.result == Threw(ExtractionFailed) ==> r.disk == d
    ensures r.result == Completed ==> zipPath !in r.disk.files
  {
    var extracted := ExtractStep(d, zipPath, UnzipDestination(zipPath), decode);
    if !extracted.ok then Run(Threw(ExtractionFailed), extracted.disk)
    else
      var removed := UnlinkStep(extracted.disk, zipPath);
      if removed.ok then Run(Completed, removed.disk) else Run(Threw(UnlinkFailed), removed.disk)
  }

  /**
    A path comes back exactly when the response has a body and the file was
    written; it is `join(outputDir, filename)` and holds the body.
  */
  lemma {:induction false} DownloadResult(d: Disk, url: string, outputDir: Path,
                                          filename: Option<string>, response: Response)
    ensures var run := DownloadSpec(d, url, outputDir, filename, response);
      && (run.result.Err? <==> response.FetchRejected?)
      && (run.result.Err? ==> run.disk == d)
      && (response.Response? && response.body.None? ==> run == Run(Ok(None), d))
      && (run.result.Ok? && run.result.value.Some? <==>
            && response.Response? && response.body.Some?
            && (PathExists(d, TrimTrailingSlashes(outputDir)) || MkDirStep(d, TrimTrailingSlashes(outputDir)).ok)
            && WriteStep(EnsureDir(d, TrimTrailingSlashes(outputDir)),
                         Join(TrimTrailingSlashes(outputDir), Filename(filename, url)),
                         response.body.value).ok)
      && (run.result.Ok? && run.result.value.Some? ==>
            && response.Response? && response.body.Some?
            && run.result.value.value == Join(TrimTrailingSlashes(outputDir), Filename(filename, url))
            && run.result.value.value in run.disk.files
            && run.disk.files[run.result.value.value] == response.body.value)
      && run.disk.dirs <= d.dirs + {TrimTrailingSlashes(outputDir)}
      && (run.result.Ok? && run.result.value.Some? ==>
            run.disk.files == d.files[run.result.value.value := response.body.value])
      && (!(run.result.Ok? && run.result.value.Some?) ==> run.disk.files == d.files)
  {
  }

  /** Whether or not the output directory existed beforehand, the download ends the same way. */
  lemma DownloadDirIdempotent(d: Disk, url: string, outputDir: Path, filename: Option<string>,
                              body: Bytes)
    requires MkDirStep(d, TrimTrailingSlashes(outputDir)).ok
    ensures DownloadSpec(d, url, outputDir, filename, Response(Some(body)))
         == DownloadSpec(MkDirStep(d, TrimTrailingSlashes(outputDir)).disk, url, outputDir, filename,
                         Response(Some(body)))
  {
    assert PathExists(MkDirStep(d, TrimTrailingSlashes(outputDir)).disk, TrimTrailingSlashes(outputDir));
  }

  /** A trailing `/` on the output directory makes no difference to the download. */
  lemma DownloadIgnoresTrailingSlash(d: Disk, url: string, outputDir: Path, filename: Option<string>,
                                     response: Response)
    ensures DownloadSpec(d, url, outputDir + "/", filename, response)
         == DownloadSpec(d, url, outputDir, filename, response)
  {
    TrimTrailingSlashesOfSlash(outputDir);
  }

  /** Into a fresh `out/`, the download creates `out` and writes the file at `out/<name>`. */
  lemma DownloadIntoFreshDirectory(url: string, body: Bytes)
    requires LastSegment(url) != ""
    ensures DownloadSpec(Disk({}, map[]), url, "out/", None, Response(Some(body)))
         == Run(Ok(Some("out/" + LastSegment(url))), Disk({"out"}, map["out/" + LastSegment(url) := body]))
  {
    OutTrimmed();
    OutMadeOnEmptyDisk();
    WrittenBelowOut(LastSegment(url), body);
  }

  lemma OutTrimmed()
    ensures TrimTrailingSlashes("out/") == "out"
  {
    TrimTrailingSlashesCharacterised("out/", "out");
  }

  lemma OutMadeOnEmptyDisk()
    ensures !PathExists(Disk({}, map[]), "out")
    ensures MkDirStep(Disk({}, map[]), "out") == Step(true, Disk({"out"}, map[]))
  {
    assert Dirname("out") == "";
  }

  lemma WrittenBelowOut(name: string, body: Bytes)
    requires name != "" && '/' !in name
    ensures Join("out", name) == "out/" + name
    ensures WriteStep(Disk({"out"}, map[]), "out/" + name, body) == Step(true, Disk({"out"}, map["out/" + name := body]))
  {
    var p := "out/" + name;
    assert Join("out", name) == p by {
      assert "out" + "/" == "out/";
    }
    JoinSplits("out", name);
    var made := Disk({"out"}, map[]);
    assert !IsDir(made, p) by {
      assert |p| > 3;
    }
    assert IsDir(made, Dirname(p));
  }

  /** With no asset naming the package, `runExport` throws before anything is downloaded or written. */
  lemma NoMatchingAssetNoDownload(d: Disk, outputDir: Path, api: string -> ReleaseIndex,
                                  serve: string -> Response, decode: Bytes -> Option<Archive>)
    requires api(ReleaseDataUrl).Release?
    requires forall j :: 0 <= j < |api(ReleaseDataUrl).assets| ==>
               !Contains(api(ReleaseDataUrl).assets[j].name, PackageName)
    ensures RunExportSpec(d, outputDir, api, serve, decode) == Run(Threw(NoMatchingAsset), d)
  {
  }

  /** A rejected `fetch` is not swallowed: `runExport` throws and nothing on disk changes. */
  lemma FetchRejectionPropagates(d: Disk, outputDir: Path, api: string -> ReleaseIndex,
                                 serve: string -> Response, decode: Bytes -> Option<Archive>)
    requires GetReleaseUrl(api(ReleaseDataUrl)).Ok? && serve(GetReleaseUrl(api(ReleaseDataUrl)).value) == FetchRejected
    ensures RunExportSpec(d, outputDir, api, serve, decode) == Run(Threw(FetchFailed), d)
  {
  }

  /**
    When no path comes back, neither extraction nor deletion runs:
    `runExport` completes and leaves what the download left.
  */
  lemma NoPathNoExtraction(d: Disk, outputDir: Path, api: string -> ReleaseIndex,
                           serve: string -> Response, decode: Bytes -> Option<Archive>)
    requires GetReleaseUrl(api(ReleaseDataUrl)).Ok?
    requires DownloadSpec(d, GetReleaseUrl(api(ReleaseDataUrl)).value, outputDir, None, serve(GetReleaseUrl(api(ReleaseDataUrl)).value)).result == Ok(None)
    ensures RunExportSpec(d, outputDir, api, serve, decode)
         == Run(Completed, DownloadSpec(d, GetReleaseUrl(api(ReleaseDataUrl)).value, outputDir, None,
                                        serve(GetReleaseUrl(api(ReleaseDataUrl)).value)).disk)
  {
  }

  /** A file extracted next to the archive never lands on the archive's own path. */
  lemma TargetAvoidsArchive(zipPath: Path, n: string)
    requires n != ""
    ensures Target(UnzipDestination(zipPath), n) != zipPath
  {
    var t := Target(UnzipDestination(zipPath), n);
    var dir := Dirname(zipPath);
    if dir == "" {
      assert t == PackageName + "/" + n;
      assert t[16] == '/';
      if '/' in zipPath {
        assert zipPath[0] == '/' && t[0] == 'm';
      }
    } else {
      assert t == dir + "/" + PackageName + "/" + n;
      assert t[|dir| + 17] == '/';
      var last := LastSegment(zipPath);
      assert zipPath == dir + "/" + last;
      forall k | |dir| + 1 <= k < |zipPath| ensures zipPath[k] != '/' {
        assert zipPath[k] == last[k - |dir| - 1];
      }
    }
  }

  /**
    `unzip(zipPath)` then `fs.unlinkSync(zipPath)`, for an archive that was
    just written: the archive is deleted only once it has been extracted.
  */
  lemma ExtractThenDelete(d: Disk, zipPath: Path, decode: Bytes -> Option<Archive>)
    requires zipPath in d.files
    ensures var run := FinishSpec(d, zipPath, decode);
      && run.result != Threw(UnlinkFailed)
      && (run.result == Completed || run.result == Threw(ExtractionFailed))
      && (run.result == Threw(ExtractionFailed) ==> run.disk == d)
      && (run.result == Completed ==>
            && zipPath !in run.disk.files
            && UnzipDestination(zipPath) in run.disk.dirs
            && decode(d.files[zipPath]).Some?
            && run.disk.dirs == d.dirs + {UnzipDestination(zipPath)}
            && var a := decode(d.files[zipPath]).value;
            && (forall n :: n in a ==>
                  && Target(UnzipDestination(zipPath), n) in run.disk.files
                  && run.disk.files[Target(UnzipDestination(zipPath), n)] == a[n])
            && (forall q :: q in run.disk.files ==>
                  && q != zipPath
                  && (q in d.files || exists n :: n in a && q == Target(UnzipDestination(zipPath), n)))
            && (forall q :: q in d.files && q != zipPath && (forall n :: n in a ==> q != Target(UnzipDestination(zipPath), n)) ==>
                  q in run.disk.files && run.disk.files[q] == d.files[q]))
  {
    var dest := UnzipDestination(zipPath);
    var extracted := ExtractStep(d, zipPath, dest, decode);
    if extracted.ok {
      var a := decode(d.files[zipPath]).value;
      ExtractionPlacesEntries(d, zipPath, dest, decode, a);
      forall n | n in a ensures Target(dest, n) != zipPath {
        if n != "" {
          TargetAvoidsArchive(zipPath, n);
        }
      }
    }
  }

  /** `runExport` never fails at the deletion of the downloaded archive. */
  lemma {:induction false} CleanupNeverFails(d: Disk, outputDir: Path, api: string -> ReleaseIndex,
                                             serve: string -> Response, decode: Bytes -> Option<Archive>)
    ensures RunExportSpec(d, outputDir, api, serve, decode).result != Threw(UnlinkFailed)
  {
    if GetReleaseUrl(api(ReleaseDataUrl)).Ok? {
      var url := GetReleaseUrl(api(ReleaseDataUrl)).value;
      var download := DownloadSpec(d, url, outputDir, None, serve(url));
      DownloadResult(d, url, outputDir, None, serve(url));
      if download.result.Ok? && download.result.value.Some? {
        ExtractThenDelete(download.disk, download.result.value.value, decode);
      }
    }
  }

  /**
    Every step of `runExport` can go ahead: the release resolves to `url`,
    the download writes the archive at `zipPath`, the archive decodes to `a`,
    and nothing is in the way of extracting it.
  */
  ghost predicate ExportGoesThrough(d: Disk, outputDir: Path, api: string -> ReleaseIndex,
                                    serve: string -> Response, decode: Bytes -> Option<Archive>,
                                    url: string, zipPath: Path, a: Archive)
  {
    var dl := DownloadSpec(d, url, outputDir, None, serve(url));
    && GetReleaseUrl(api(ReleaseDataUrl)) == Ok(url)
    && dl.result == Ok(Some(zipPath))
    && zipPath in dl.disk.files
    && decode(dl.disk.files[zipPath]) == Some(a)
    && CanExtractTo(dl.disk, UnzipDestination(zipPath), a)
  }

  /**
    The positive half of the export: when the release resolves, the download
    returns a path and its archive can be extracted there, `runExport`
    completes. The archive is gone, and its entries sit under the sibling
    `mapbox-embed-vue` directory, which is `<outputDir>/mapbox-embed-vue`
    when the URL ends in a file name.
  */
  lemma {:induction false} RunExportCompletes(d: Disk, outputDir: Path, api: string -> ReleaseIndex,
                                              serve: string -> Response, decode: Bytes -> Option<Archive>,
                                              url: string, zipPath: Path, a: Archive)
    requires ExportGoesThrough(d, outputDir, api, serve, decode, url, zipPath, a)
    ensures var run := RunExportSpec(d, outputDir, api, serve, decode);
      && run.result == Completed
      && zipPath !in run.disk.files
      && UnzipDestination(zipPath) in run.disk.dirs
      && (forall n :: n in a ==>
            Target(UnzipDestination(zipPath), n) in run.disk.files
            && run.disk.files[Target(UnzipDestination(zipPath), n)] == a[n])
      && (LastSegment(url) != "" ==> UnzipDestination(zipPath) == Join(TrimTrailingSlashes(outputDir), PackageName))
  {
    var dl := DownloadSpec(d, url, outputDir, None, serve(url));
    DownloadResult(d, url, outputDir, None, serve(url));
    ExtractThenDelete(dl.disk, zipPath, decode);
    ExtractionPlacesEntries(dl.disk, zipPath, UnzipDestination(zipPath), decode, a);
    if LastSegment(url) != "" {
      UnzipNextToDownload(TrimTrailingSlashes(outputDir), LastSegment(url));
    }
  }

  /** `unzip(zipPath)`. */
  method Unzip(fs: FileSystem, zipPath: Path, decode: Bytes -> Option<Archive>) returns (ok: bool)
    modifies fs
    ensures Step(ok, fs.State()) == ExtractStep(old(fs.State()), zipPath, UnzipDestination(zipPath), decode)
  {
    var destination := Join(Dirname(zipPath), PackageName);
    ok := fs.ExtractAll(zipPath, destination, decode);
  }

  /** `downloadFile(url, outputDir, filename)`. */
  method DownloadFile(fs: FileSystem, url: string, outputDir: Path, filename: Option<string>,
                      response: Response) returns (r: Result<Option<Path>, Failure>)
    modifies fs
    ensures Run(r, fs.State()) == DownloadSpec(old(fs.State()), url, outputDir, filename, response)
  {
    if response.FetchRejected? {
      return Err(FetchFailed);
    }
    if response.body.None? {
      return Ok(None);
    }
    var name := Filename(filename, url);
    var dir := TrimTrailingSlashes(outputDir);
    if !fs.Exists(dir) {
      var made := fs.MkDir(dir);
      if !made {
        return Ok(None);
      }
    }
    var destination := Join(dir, name);
    var written := fs.Write(destination, response.body.value);
    if written {
      r := Ok(Some(destination));
    } else {
      r := Ok(None);
    }
  }

  /** `runExport(outputDir)`: resolve, download, then extract and delete only when a path came back. */
  method RunExport(fs: FileSystem, outputDir: Path, api: string -> ReleaseIndex, serve: string -> Response,
                   decode: Bytes -> Option<Archive>) returns (outcome: Outcome)
    modifies fs
    ensures Run(outcome, fs.State()) == RunExportSpec(old(fs.State()), outputDir, api, serve, decode)
  {
    var releaseUrl := GetReleaseUrl(api(ReleaseDataUrl));
    if releaseUrl.Err? {
      return Threw(releaseUrl.error);
    }
    var zipPath := DownloadFile(fs, releaseUrl.value, outputDir, None, serve(releaseUrl.value));
    if zipPath.Err? {
      return Threw(zipPath.error);
    }
    if zipPath.value.Some? {
      var extracted := Unzip(fs, zipPath.value.value, decode);
      if !extracted {
        return Threw(ExtractionFailed);
      }
      var removed := fs.Unlink(zipPath.value.value);
      if !removed {
        return Threw(UnlinkFailed);
      }
    }
    outcome := Completed;
  }
}
