/**
  The entry point `packages/mapbox-embed-vue/src/cli/index.ts`: check the
  arguments, run the export into `args[1]`, and turn the result into the
  process's exit code. The usage message and `process.exit` itself are not
  modelled; the exit code is the result.

  The entry point imports `runExport` from a sibling `export.js` that is not
  part of this model; it is taken to be `Export.RunExport`.
*/
module CliEntry {
  import opened Wrappers
  import opened Paths
  import opened Archives
  import opened FileSystems
  import opened Export

  const ExportFlag: string := "--export"

  /** What the argument checks decide. */
  datatype Decision = UsageError | StartExport(outputDir: string)

  /** `process.argv.slice(2)`: the arguments after the runtime and the script. */
  function Args(argv: seq<string>): (args: seq<string>)
    ensures |argv| >= 2 ==> argv == argv[..2] + args
    ensures |argv| < 2 ==> args == []
  {
    if |argv| < 2 then [] else argv[2..]
  }

  /**
    The two guards: the first argument must be exactly `--export`, and a
    second, non-empty argument must follow; it is the output directory.
  */
  function Decide(args: seq<string>): (r: Decision)
    ensures r.UsageError? <==> |args| == 0 || args[0] != ExportFlag || |args| == 1 || args[1] == ""
    ensures r.StartExport? ==> r.outputDir == args[1] && r.outputDir != ""
  {
    if |args| == 0 || args[0] != ExportFlag then UsageError
    else if |args| < 2 || args[1] == "" then UsageError
    else StartExport(args[1])
  }

  /** Arguments after the second one play no part. */
  lemma DecideIgnoresExtraArguments(args: seq<string>, extra: seq<string>)
    requires |args| >= 2
    ensures Decide(args[..2] + extra) == Decide(args)
  {
  }

  /** Any non-empty output directory is accepted: nothing checks that it is absolute. */
  lemma DecideAcceptsAnyDirectory(dir: string, extra: seq<string>)
    requires dir != ""
    ensures Decide([ExportFlag, dir] + extra) == StartExport(dir)
  {
  }

  /** The exit code the whole invocation ends with, and the state it leaves. */
  function Invocation(d: Disk, argv: seq<string>, api: string -> ReleaseIndex, serve: string -> Response,
                      decode: Bytes -> Option<Archive>): Run<int>
  {
    match Decide(Args(argv))
    case UsageError => Run(1, d)
    case StartExport(outputDir) =>
      var run := RunExportSpec(d, outputDir, api, serve, decode);
      Run(if run.result == Completed then 0 else 1, run.disk)
  }

  /**
    A usage error exits with 1 and touches nothing; otherwise the export runs
    on `args[1]` and the exit code is 0 exactly when it completes.
  */
  lemma {:induction false} InvocationExitCode(d: Disk, argv: seq<string>, api: string -> ReleaseIndex,
                                              serve: string -> Response, decode: Bytes -> Option<Archive>)
    ensures var run := Invocation(d, argv, api, serve, decode);
      && (run.result == 0 || run.result == 1)
      && (Decide(Args(argv)).UsageError? ==> run == Run(1, d))
      && (Decide(Args(argv)).StartExport? ==>
            var exported := RunExportSpec(d, argv[3], api, serve, decode);
            && run.disk == exported.disk
            && (run.result == 0 <==> exported.result == Completed))
  {
    if Decide(Args(argv)).StartExport? {
      assert Args(argv)[1] == argv[3];
    }
  }

  /**
    When the argument checks pass with output directory `dir` and the release
    resolves, downloads and extracts, the invocation exits 0 and leaves the
    extracted entries and no archive.
  */
  lemma {:induction false} InvocationExportsRelease(d: Disk, argv: seq<string>, dir: string,
                                                    api: string -> ReleaseIndex, serve: string -> Response,
                                                    decode: Bytes -> Option<Archive>,
                                                    url: string, zipPath: Path, a: Archive)
    requires Decide(Args(argv)) == StartExport(dir)
    requires ExportGoesThrough(d, dir, api, serve, decode, url, zipPath, a)
    ensures var run := Invocation(d, argv, api, serve, decode);
      && run.result == 0
      && zipPath !in run.disk.files
      && (forall n :: n in a ==>
            Target(UnzipDestination(zipPath), n) in run.disk.files
            && run.disk.files[Target(UnzipDestination(zipPath), n)] == a[n])
  {
    RunExportCompletes(d, dir, api, serve, decode, url, zipPath, a);
  }

  /** The script itself: decide, run the export when the checks pass, and exit with the code. */
  method Cli(fs: FileSystem, argv: seq<string>, api: string -> ReleaseIndex, serve: string -> Response,
             decode: Bytes -> Option<Archive>) returns (exitCode: int)
    modifies fs
    ensures Run(exitCode, fs.State()) == Invocation(old(fs.State()), argv, api, serve, decode)
  {
    var args := Args(argv);
    var job := if |args| > 0 then args[0] else "";
    if job != ExportFlag {
      return 1;
    }
    var outputDirArg := if |args| > 1 then args[1] else "";
    if outputDirArg == "" {
      return 1;
    }
    var outcome := RunExport(fs, outputDirArg, api, serve, decode);
    exitCode := if outcome == Completed then 0 else 1;
  }
}
