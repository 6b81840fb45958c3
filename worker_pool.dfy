/**
 * `run_multi_threaded`: validate the worker count, then search every path in
 * turn (0 workers) or hand the paths to a process pool (more workers).
 */
module WorkerPool {
  import opened Wrappers
  import opened Files
  import opened LineScanner

  /** The condition under which `InvalidAmountOfWorkers` is raised. */
  predicate InvalidWorkerCount(workers: int, count: nat) {
    workers < 0 || (workers > count && workers != 0)
  }

  /**
   * `search_in_file` over `paths` in order; the first missing path raises
   * `InvalidFileError`, which nothing catches, so the whole search fails.
   */
  function SearchAll(fs: FileSystem, pattern: Pattern, paths: seq<string>): Result<seq<ScanResult>, Error>
    decreases |paths|
  {
    if paths == [] then Success([])
    else match Search(fs, paths[0], pattern)
      case Failure(e) => Failure(e)
      case Success(first) =>
        match SearchAll(fs, pattern, paths[1..])
        case Failure(e) => Failure(e)
        case Success(rest) => Success([first] + rest)
  }

  /**
   * The value `run_multi_threaded` returns or raises, as written: the
   * parallel branch computes every search and then returns `[]`.
   */
  function Run(fs: FileSystem, pattern: Pattern, paths: seq<string>, workers: int): Result<seq<ScanResult>, Error> {
    if InvalidWorkerCount(workers, |paths|) then Failure(InvalidAmountOfWorkers)
    else if workers == 0 then SearchAll(fs, pattern, paths)
    else match SearchAll(fs, pattern, paths)
      case Failure(e) => Failure(e)
      case Success(_) => Success([])
  }

  /** The evidently intended `run_multi_threaded`: the parallel branch returns the pool's results. */
  function RunIntended(fs: FileSystem, pattern: Pattern, paths: seq<string>, workers: int): Result<seq<ScanResult>, Error> {
    if InvalidWorkerCount(workers, |paths|) then Failure(InvalidAmountOfWorkers)
    else SearchAll(fs, pattern, paths)
  }

  /**
   * Searching a list succeeds exactly when every path exists; it then has
   * one result per path, in input order, each that path's own search. It
   * fails only with `InvalidFileError`.
   */
  lemma {:induction false} SearchAllShape(fs: FileSystem, pattern: Pattern, paths: seq<string>)
    ensures SearchAll(fs, pattern, paths).Success? <==> forall i :: 0 <= i < |paths| ==> paths[i] in fs
    ensures SearchAll(fs, pattern, paths).Failure? ==> SearchAll(fs, pattern, paths).error == InvalidFileError
    ensures SearchAll(fs, pattern, paths).Success? ==>
              var rs := SearchAll(fs, pattern, paths).value;
              |rs| == |paths| &&
              forall i :: 0 <= i < |paths| ==> rs[i] == ScanContent(fs[paths[i]], paths[i], pattern)
    decreases |paths|
  {
    if paths != [] {
      var tail := paths[1..];
      SearchAllShape(fs, pattern, tail);
      assert forall i :: 1 <= i < |paths| ==> paths[i] == tail[i - 1];
      if SearchAll(fs, pattern, paths).Success? {
        var rs := SearchAll(fs, pattern, paths).value;
        forall i | 0 <= i < |paths|
          ensures rs[i] == ScanContent(fs[paths[i]], paths[i], pattern)
        {
          if i > 0 {
            assert rs[i] == SearchAll(fs, pattern, tail).value[i - 1];
          }
        }
      }
    }
  }

  /** `InvalidAmountOfWorkers` is raised exactly for a negative count or one above the path count. */
  lemma RejectsWorkerCount(fs: FileSystem, pattern: Pattern, paths: seq<string>, workers: int)
    ensures Run(fs, pattern, paths, workers) == Failure(InvalidAmountOfWorkers) <==>
              workers < 0 || (workers > |paths| && workers != 0)
  {
    SearchAllShape(fs, pattern, paths);
  }

  /**
   * With 0 workers and every path present, the run has one result per
   * path, in input order, each the search of that path.
   */
  lemma SequentialRun(fs: FileSystem, pattern: Pattern, paths: seq<string>)
    requires forall i :: 0 <= i < |paths| ==> paths[i] in fs
    ensures Run(fs, pattern, paths, 0).Success?
    ensures var rs := Run(fs, pattern, paths, 0).value;
            |rs| == |paths| &&
            forall i :: 0 <= i < |paths| ==> Success(rs[i]) == Search(fs, paths[i], pattern)
  {
    SearchAllShape(fs, pattern, paths);
  }

  /** A missing path aborts the 0-worker run with `InvalidFileError` instead of being skipped. */
  lemma MissingFileAbortsRun(fs: FileSystem, pattern: Pattern, paths: seq<string>, i: nat)
    requires i < |paths| && paths[i] !in fs
    ensures Run(fs, pattern, paths, 0) == Failure(InvalidFileError)
  {
    SearchAllShape(fs, pattern, paths);
  }

  /** A valid positive worker count returns `[]` when every path exists, else `InvalidFileError`. */
  lemma ParallelRun(fs: FileSystem, pattern: Pattern, paths: seq<string>, workers: int)
    requires 0 < workers <= |paths|
    ensures Run(fs, pattern, paths, workers) ==
              if forall i :: 0 <= i < |paths| ==> paths[i] in fs then Success([])
              else Failure(InvalidFileError)
  {
    SearchAllShape(fs, pattern, paths);
  }

  /**
   * One existing file whose one line the pattern matches: 0 workers report
   * the match, 1 worker returns `[]`.
   */
  lemma ParallelDiscardsResults(pattern: Pattern)
    requires pattern("foo\n")
    ensures var fs := map["a.txt" := Decoded(["foo\n"])];
            Run(fs, pattern, ["a.txt"], 0) == Success([Some([Entry("foo", "a.txt", 1)])]) &&
            Run(fs, pattern, ["a.txt"], 1) == Success([])
  {
    StripValidLine("foo\n");
    assert "foo\n"[..3] == "foo";
    assert ["foo\n"][..0] == [];
    assert Scan(["foo\n"], "a.txt", pattern) == [Entry("foo", "a.txt", 1)];
    assert ["a.txt"][1..] == [];
    var fs := map["a.txt" := Decoded(["foo\n"])];
    assert Search(fs, "a.txt", pattern) == Success(Some([Entry("foo", "a.txt", 1)]));
    assert SearchAll(fs, pattern, ["a.txt"][1..]) == Success([]);
    assert [Some([Entry("foo", "a.txt", 1)])] + [] == [Some([Entry("foo", "a.txt", 1)])];
    assert SearchAll(fs, pattern, ["a.txt"]) == Success([Some([Entry("foo", "a.txt", 1)])]);
  }

  /** In the intended version every valid worker count gives the same result. */
  lemma IntendedModesAgree(fs: FileSystem, pattern: Pattern, paths: seq<string>, w1: int, w2: int)
    requires !InvalidWorkerCount(w1, |paths|) && !InvalidWorkerCount(w2, |paths|)
    ensures RunIntended(fs, pattern, paths, w1) == RunIntended(fs, pattern, paths, w2)
    ensures RunIntended(fs, pattern, paths, w1) == Run(fs, pattern, paths, 0)
  {
  }

  /**
   * `run_multi_threaded(pattern, file_paths, is_in_memory, is_line_numbers,
   * amount_of_workers)`. `searched` lists the paths given to `search_in_file`
   * on this thread, in order; `lineNumbers` is accepted and unused.
   */
  method RunMultiThreaded(fs: FileSystem, pattern: Pattern, filePaths: seq<string>, inMemory: bool,
                          lineNumbers: bool, workers: int)
    returns (r: Result<seq<ScanResult>, Error>, ghost searched: seq<string>)
    requires ValidFileSystem(fs)
    ensures r == Run(fs, pattern, filePaths, workers)
    ensures InvalidWorkerCount(workers, |filePaths|) ==> searched == []
    ensures workers == 0 ==> searched <= filePaths && (r.Success? ==> searched == filePaths)
    ensures workers == 0 && r.Failure? ==>
              searched != [] && searched[|searched| - 1] !in fs &&
              forall j :: 0 <= j < |searched| - 1 ==> searched[j] in fs
  {
    searched := [];
    if workers < 0 || (workers > |filePaths| && workers != 0) {
      return Failure(InvalidAmountOfWorkers), searched;
    }
    if workers == 0 {
      var allResults: seq<ScanResult> := [];
      for i := 0 to |filePaths|
        invariant searched == filePaths[..i]
        invariant forall j :: 0 <= j < i ==> filePaths[j] in fs
        invariant |allResults| == i
        invariant forall j :: 0 <= j < i ==> allResults[j] == ScanContent(fs[filePaths[j]], filePaths[j], pattern)
      {
        var res := SearchInFile(fs, pattern, filePaths[i], inMemory);
        searched := searched + [filePaths[i]];
        if res.Failure? {
          assert filePaths[i] !in fs && searched == filePaths[..i + 1];
          SearchAllShape(fs, pattern, filePaths);
          assert SearchAll(fs, pattern, filePaths) == Failure(InvalidFileError);
          return Failure(res.error), searched;
        }
        allResults := allResults + [res.value];
      }
      assert searched == filePaths;
      SearchAllShape(fs, pattern, filePaths);
      assert allResults == SearchAll(fs, pattern, filePaths).value;
      return Success(allResults), searched;
    }
    // The pool's fan-out is not modelled: its `starmap` yields the searches'
    // outcome, and the branch then returns an empty list.
    var results := SearchAll(fs, pattern, filePaths);
    if results.Failure? {
      return Failure(results.error), searched;
    }
    return Success([]), searched;
  }
}
