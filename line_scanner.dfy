/**
 * `search_in_file`: scan one file for the lines a pattern matches, either
 * reading the whole file first (`is_in_memory`) or streaming it line by line.
 */
module LineScanner {
  import opened Wrappers
  import opened Files

  /** `re.search(pattern, line) is not None`, for the compiled pattern of the run. */
  type Pattern = string -> bool

  /** One reported match: `(line.rstrip('\n'), file_path, line_number)`. */
  datatype Entry = Entry(text: string, path: string, lineNumber: nat)

  /** What `search_in_file` returns: the entries, or `None` after a decode error. */
  type ScanResult = Option<seq<Entry>>

  /** The two exceptions the module defines. */
  datatype Error = InvalidFileError | InvalidAmountOfWorkers

  /** `s.rstrip('\n')`: `s` without every newline at its end. */
  function RStripNewline(s: string): (r: string)
    ensures r <= s
    ensures r == [] || r[|r| - 1] != '\n'
    ensures forall i :: |r| <= i < |s| ==> s[i] == '\n'
    decreases |s|
  {
    if s != [] && s[|s| - 1] == '\n' then RStripNewline(s[..|s| - 1]) else s
  }

  /** On a raw line the strip removes exactly the one line terminator, if any. */
  lemma StripValidLine(s: string)
    requires ValidLine(s)
    ensures RStripNewline(s) == if s[|s| - 1] == '\n' then s[..|s| - 1] else s
    ensures forall i :: 0 <= i < |RStripNewline(s)| ==> RStripNewline(s)[i] != '\n'
  {
  }

  /**
   * The entries found in `lines`: for each raw line, in file order, that the
   * pattern matches, the stripped line, the path, and its 1-based number.
   */
  function Scan(lines: seq<string>, path: string, pattern: Pattern): seq<Entry>
    decreases |lines|
  {
    if lines == [] then []
    else
      var n := |lines|;
      Scan(lines[..n - 1], path, pattern) +
      (if pattern(lines[n - 1]) then [Entry(RStripNewline(lines[n - 1]), path, n)] else [])
  }

  /** What one open file yields: its entries, or `None` when it cannot be decoded. */
  function ScanContent(content: Content, path: string, pattern: Pattern): ScanResult {
    match content
    case Decoded(lines) => Some(Scan(lines, path, pattern))
    case Undecodable(_) => None
  }

  /** `search_in_file(pattern, path, is_in_memory)` as a value, whichever way the file is read. */
  function Search(fs: FileSystem, path: string, pattern: Pattern): Result<ScanResult, Error> {
    if path !in fs then Failure(InvalidFileError) else Success(ScanContent(fs[path], path, pattern))
  }

  /** Every reported entry comes from a matching line. */
  lemma {:induction false} ScanSound(lines: seq<string>, path: string, pattern: Pattern, e: Entry)
    requires e in Scan(lines, path, pattern)
    ensures exists i :: 0 <= i < |lines| && pattern(lines[i]) &&
                        e == Entry(RStripNewline(lines[i]), path, i + 1)
    decreases |lines|
  {
    var n := |lines|;
    var init := lines[..n - 1];
    if e in Scan(init, path, pattern) {
      ScanSound(init, path, pattern, e);
      var i :| 0 <= i < |init| && pattern(init[i]) && e == Entry(RStripNewline(init[i]), path, i + 1);
      assert lines[i] == init[i];
    } else {
      assert pattern(lines[n - 1]) && e == Entry(RStripNewline(lines[n - 1]), path, n);
    }
  }

  /** Every matching line is reported, stripped, at its 1-based number. */
  lemma {:induction false} ScanComplete(lines: seq<string>, path: string, pattern: Pattern, i: nat)
    requires i < |lines| && pattern(lines[i])
    ensures Entry(RStripNewline(lines[i]), path, i + 1) in Scan(lines, path, pattern)
    decreases |lines|
  {
    var n := |lines|;
    var init := lines[..n - 1];
    if i < n - 1 {
      assert init[i] == lines[i];
      ScanComplete(init, path, pattern, i);
    }
  }

  /** An entry is reported exactly for a matching line, as that line stripped, at its 1-based number. */
  lemma {:induction false} ScanMembers(lines: seq<string>, path: string, pattern: Pattern, e: Entry)
    ensures e in Scan(lines, path, pattern) <==>
              exists i :: 0 <= i < |lines| && pattern(lines[i]) &&
                          e == Entry(RStripNewline(lines[i]), path, i + 1)
  {
    if e in Scan(lines, path, pattern) {
      ScanSound(lines, path, pattern, e);
    }
    if exists i :: 0 <= i < |lines| && pattern(lines[i]) && e == Entry(RStripNewline(lines[i]), path, i + 1) {
      var i :| 0 <= i < |lines| && pattern(lines[i]) && e == Entry(RStripNewline(lines[i]), path, i + 1);
      ScanComplete(lines, path, pattern, i);
    }
  }

  /** Line numbers lie between 1 and the line count and strictly increase along the result. */
  lemma {:induction false} ScanOrdered(lines: seq<string>, path: string, pattern: Pattern)
    ensures var r := Scan(lines, path, pattern);
            |r| <= |lines| &&
            (forall j :: 0 <= j < |r| ==> 1 <= r[j].lineNumber <= |lines| && r[j].path == path) &&
            (forall j, k :: 0 <= j < k < |r| ==> r[j].lineNumber < r[k].lineNumber)
    decreases |lines|
  {
    if lines != [] {
      ScanOrdered(lines[..|lines| - 1], path, pattern);
    }
  }

  /**
   * A file `foo`, `bar`, `foobar` searched for a pattern that matches the
   * first and third raw lines reports those two, numbered 1 and 3.
   */
  lemma ScanExample(pattern: Pattern)
    requires pattern("foo\n") && !pattern("bar\n") && pattern("foobar")
    ensures Scan(["foo\n", "bar\n", "foobar"], "a.txt", pattern) ==
            [Entry("foo", "a.txt", 1), Entry("foobar", "a.txt", 3)]
  {
    var lines := ["foo\n", "bar\n", "foobar"];
    assert lines[..2] == ["foo\n", "bar\n"] && lines[..2][..1] == ["foo\n"] && lines[..2][..1][..0] == [];
    StripValidLine("foo\n");
    assert "foo\n"[..3] == "foo";
    assert RStripNewline("foobar") == "foobar";
    assert Scan(lines[..2][..1][..0], "a.txt", pattern) == [];
    assert Scan(lines[..2][..1], "a.txt", pattern) == [Entry("foo", "a.txt", 1)];
    assert Scan(lines[..2], "a.txt", pattern) == [Entry("foo", "a.txt", 1)];
  }

  /** A missing path fails with `InvalidFileError`, and only a missing path does. */
  lemma MissingFileFails(fs: FileSystem, path: string, pattern: Pattern)
    ensures Search(fs, path, pattern).Failure? <==> path !in fs
    ensures Search(fs, path, pattern).Failure? ==> Search(fs, path, pattern).error == InvalidFileError
  {
  }

  /** A decode error yields `None`, never part of the matches, even where readable lines match. */
  lemma DecodeErrorDiscardsMatches(fs: FileSystem, path: string, pattern: Pattern)
    requires path in fs && fs[path].Undecodable?
    ensures Search(fs, path, pattern) == Success(None)
  {
  }

  /** The `is_in_memory` branch: `readlines`, then an `enumerate` loop over the lines. */
  method ScanInMemory(content: Content, path: string, pattern: Pattern) returns (r: ScanResult)
    requires ValidContent(content)
    ensures r == ScanContent(content, path, pattern)
  {
    var file := new TextFile.Open(content);
    var data := file.ReadLines();
    if data.DecodeError? {
      return None;
    }
    var lines := data.value;
    assert lines == content.lines;
    var result: seq<Entry> := [];
    for index := 0 to |lines|
      invariant result == Scan(lines[..index], path, pattern)
    {
      assert lines[..index + 1][..index] == lines[..index];
      if pattern(lines[index]) {
        result := result + [Entry(RStripNewline(lines[index]), path, index + 1)];
      }
    }
    assert lines[..|lines|] == lines;
    return Some(result);
  }

  /** The streaming branch: a `readline` loop with a hand-kept line counter. */
  method ScanStreaming(content: Content, path: string, pattern: Pattern) returns (r: ScanResult)
    requires ValidContent(content)
    ensures r == ScanContent(content, path, pattern)
  {
    ghost var lines := content.Readable();
    var file := new TextFile.Open(content);
    var result: seq<Entry> := [];
    var line := file.ReadLine();
    if line.DecodeError? {
      return None;
    }
    var lineNumber := 1;
    while line.value != ""
      invariant file.Valid() && file.content == content
      invariant 1 <= lineNumber && line.Got?
      invariant line.value != "" ==>
                  file.pos == lineNumber <= |lines| && line.value == lines[lineNumber - 1]
      invariant line.value == "" ==> file.pos == lineNumber - 1 == |lines| && content.Decoded?
      invariant result == Scan(lines[..lineNumber - 1], path, pattern)
      decreases |lines| + 1 - lineNumber
    {
      assert lines[..lineNumber][..lineNumber - 1] == lines[..lineNumber - 1];
      if pattern(line.value) {
        result := result + [Entry(RStripNewline(line.value), path, lineNumber)];
      }
      line := file.ReadLine();
      if line.DecodeError? {
        return None;
      }
      lineNumber := lineNumber + 1;
    }
    assert lines[..lineNumber - 1] == lines;
    return Some(result);
  }

  /**
   * `search_in_file`: a missing path fails before the file is opened; either
   * read mode then gives the same result.
   */
  method SearchInFile(fs: FileSystem, pattern: Pattern, path: string, inMemory: bool)
    returns (r: Result<ScanResult, Error>)
    requires ValidFileSystem(fs)
    ensures r == Search(fs, path, pattern)
  {
    if path !in fs {
      return Failure(InvalidFileError);
    }
    var found: ScanResult;
    if inMemory {
      found := ScanInMemory(fs[path], path, pattern);
    } else {
      found := ScanStreaming(fs[path], path, pattern);
    }
    return Success(found);
  }
}
