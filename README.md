# mgrep line search, modelled in Dafny

This project models the core of `mgrep`, a grep-like command-line tool:

- `search_in_file`: scan one file for the lines a pattern matches. It has an in-memory mode (`readlines` and an `enumerate` loop) and a streaming mode (a `readline` loop with its own line counter).
- `run_multi_threaded`: validate the worker count, then either search every file in turn (0 workers) or hand the files to a process pool.
- The filter at the end of `fetch_files_from_url`, which keeps the local paths of the downloads that succeeded.

Modules, one per component:

- `Wrappers` (`wrappers.dfy`): `Option` and `Result`. `None` stands for Python's `None` return; `Failure` stands for a raised exception.
- `Files` (`files.dfy`): the file system as a map from path to `Content`. `Content` is either `Decoded(lines)`, the raw lines of a file that decodes, or `Undecodable(readable)`, the lines a reader yields before it raises `UnicodeDecodeError`. A raw line is never empty and holds a newline only at its end; every line but the last ends in one. `TextFile` is an open file object with `ReadLine` and `ReadLines`.
- `LineScanner` (`line_scanner.dfy`): the pattern is an uninterpreted predicate on the raw line, newline included. The specification function `Scan` filters and maps the indexed lines. Both read modes are loop methods proved equal to it, so they agree with each other.
- `WorkerPool` (`worker_pool.dfy`): worker-count validation, the sequential loop, and the parallel branch's return value.
- `UrlFetch` (`url_fetch.dfy`): the `None` filter over the fetch outcomes.

The model follows the code as written; three of its behaviours are worth knowing:

- A missing path raises `InvalidFileError` inside `search_in_file` (mgrep.py:67-68). `run_multi_threaded` does not catch it, so one missing file aborts the whole run. It is not recorded as a skipped target (`WorkerPool.MissingFileAbortsRun`).
- The parallel branch returns `[]`, not the pool's results (mgrep.py:112). This is listed under Findings.
- `run_multi_threaded` loops over the module-global `files` (mgrep.py:102, 109), not over its `file_paths` parameter. Its only caller passes that same list (mgrep.py:171), so the model uses the parameter.

## Model

| member | source | states |
|---|---|---|
| `Files.TextFile.Open` | mgrep.py:74 | opening a file positions the reader before its first line |
| `Files.TextFile.ReadLine` | mgrep.py:82 | `readline` yields the next raw line; at end of file it yields `""` for a decodable file and the decode error for an undecodable one |
| `Files.TextFile.ReadLines` | mgrep.py:75 | `readlines` yields every remaining line of a decodable file, or the decode error |
| `LineScanner.RStripNewline` | mgrep.py:79 | `rstrip('\n')` returns a prefix of the line that does not end in a newline; everything removed is a newline |
| `LineScanner.StripValidLine` | mgrep.py:86 | on a raw line the strip removes exactly the trailing terminator, and the text left contains no newline |
| `LineScanner.ScanMembers` | mgrep.py:77-79 | an entry is reported exactly when the pattern matches the raw line; it holds the stripped line, the unchanged path and the 1-based line number |
| `LineScanner.ScanSound` | mgrep.py:77-79 | every reported entry is the stripped form of a raw line the pattern matches, with the unchanged path and that line's 1-based number |
| `LineScanner.ScanComplete` | mgrep.py:84-86 | every raw line the pattern matches is reported, stripped, with its 1-based number |
| `LineScanner.ScanOrdered` | mgrep.py:77-89 | no more entries than lines; line numbers lie in 1..line count, carry the file's path and strictly increase (file order) |
| `LineScanner.ScanExample` | mgrep.py:77-79 | lines `foo`, `bar`, `foobar` with a pattern matching the 1st and 3rd give entries `("foo", 1)` and `("foobar", 3)` |
| `LineScanner.MissingFileFails` | mgrep.py:67-68 | the search fails exactly when the path does not exist, and then with `InvalidFileError` |
| `LineScanner.DecodeErrorDiscardsMatches` | mgrep.py:92-93 | an undecodable file yields `None`, even when lines read before the error match |
| `LineScanner.ScanInMemory` | mgrep.py:73-79 | the `readlines`/`enumerate` branch returns `Scan` of the lines, or `None` on a decode error |
| `LineScanner.ScanStreaming` | mgrep.py:80-89 | the `readline` loop with its counter returns the same as `Scan`; a decode error part-way drops the matches so far and gives `None` |
| `LineScanner.SearchInFile` | mgrep.py:66-93 | fails with `InvalidFileError` on a missing path, otherwise returns the scan of its content; the result does not depend on `is_in_memory` |
| `WorkerPool.SearchAllShape` | mgrep.py:100-106 | searching a list succeeds exactly when every path exists; it then yields one result per path, in input order, each the scan of that path; any failure is `InvalidFileError` |
| `WorkerPool.RejectsWorkerCount` | mgrep.py:97-98 | `InvalidAmountOfWorkers` is raised exactly when workers < 0, or workers > number of paths with workers != 0 |
| `WorkerPool.SequentialRun` | mgrep.py:100-106 | with 0 workers and every path present: one result per path, in input order, each equal to `search_in_file` of that path |
| `WorkerPool.MissingFileAbortsRun` | mgrep.py:102-104 | with 0 workers, any missing path makes the whole run fail with `InvalidFileError` |
| `WorkerPool.ParallelRun` | mgrep.py:108-112 | a valid positive worker count returns `[]` when all paths exist, else fails with `InvalidFileError` |
| `WorkerPool.ParallelDiscardsResults` | mgrep.py:108-112 | with one matching line in one file, 0 workers report the match while 1 worker returns `[]` |
| `WorkerPool.IntendedModesAgree` | mgrep.py:96-112 | in the corrected run every valid worker count gives the sequential result |
| `WorkerPool.RunMultiThreaded` | mgrep.py:96-112 | the method returns the value of `Run`; an invalid count searches no file; 0 workers search the paths in order and stop at the first missing one |
| `UrlFetch.KeepFetched` | mgrep.py:134 | the filter is never longer than its input; a path is kept exactly when it is a successful outcome |
| `UrlFetch.KeepFetchedAppend` | mgrep.py:134 | the filter distributes over concatenation, so kept paths stay in input order |
| `UrlFetch.KeepFetchedSingle` | mgrep.py:134 | a failed download contributes nothing, a saved one its path |
| `UrlFetch.FetchFilesFromUrl` | mgrep.py:128-134 | the result is never longer than the URL list and holds exactly the paths some URL was saved to |
| `UrlFetch.FetchFilesFromUrlSnoc` | mgrep.py:131-134 | fetching one more URL appends its saved path, if any, after the paths of the earlier URLs, so the result follows URL order |

## Findings

| source | as written | input that shows it | evidently intended | confidence | as-written member | corrected member |
|---|---|---|---|---|---|---|
| mgrep.py:108-112 | the parallel branch collects the pool's `results` and then returns `[]` | file `a.txt` holding `foo\n`, a pattern matching that line, paths `["a.txt"]`, 1 worker | `return results`: the same list as the 0-worker run | high; not executed | `WorkerPool.Run`, `WorkerPool.ParallelDiscardsResults` | `WorkerPool.RunIntended`, `WorkerPool.IntendedModesAgree` |

`RunMultiThreaded` models the code as written, so it is proved against `Run`, not `RunIntended`.

## Left out

- `setup_cli` and argparse (mgrep.py:22-63): command-line glue.
- `save_url_to_temp` and the HTTP request (mgrep.py:114-126): network I/O. Each URL's outcome is the parameter `save` of `FetchFilesFromUrl`. The temporary directory creation (mgrep.py:129) is left out too.
- The `multiprocessing.Pool` fan-out (mgrep.py:108-110, 131-132): concurrency. The parallel branch is modelled by the outcome of `starmap`, meaning the first `InvalidFileError` or success. Which worker raises first is not modelled. It does not matter, because the exception carries no data.
- The regular-expression engine: the pattern is a predicate on the raw line.
- Python's text decoding and universal-newline handling: abstracted into `Content`.
- The `__main__` block (mgrep.py:136-183) is left out, including:
  - the "no files" exits;
  - the timing and printing;
  - the `os.listdir` override at mgrep.py:165, which replaces the resolved file list;
  - the `shutil.rmtree` cleanup.
- The diagnostic `print` on a decode error (mgrep.py:93): output only.
- `os.path.split` (mgrep.py:71): its result is unused.
- Closing the file: the streaming branch never closes it, and the in-memory branch closes it after `readlines`. Neither affects the result.
- Paths that exist but are not readable files, such as directories: `os.path.exists` is true for them and `open` then raises an error the code does not handle. The file system maps only regular files.
- `WorkerPool.RunMultiThreaded`: its ghost `searched` says nothing about which files the pool opens in the parallel branch, because the pool is not modelled.
