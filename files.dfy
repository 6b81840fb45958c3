/**
 * The file system as the line scanner sees it: paths mapped to what Python's
 * text reader produces for each file, and an open text file that hands out
 * those lines one at a time (`readline`) or all at once (`readlines`).
 * Byte decoding and universal-newline translation happen below this model.
 */
module Files {

  /**
   * What reading a file as text yields. `Decoded(lines)`: the whole file
   * decodes and splits into `lines`. `Undecodable(readable)`: the reader
   * yields the lines `readable` and then raises `UnicodeDecodeError`.
   */
  datatype Content = Decoded(lines: seq<string>) | Undecodable(readable: seq<string>)
  {
    /** The lines a reader can hand out before end of file or the decode error. */
    function Readable(): seq<string> {
      match this
      case Decoded(lines) => lines
      case Undecodable(readable) => readable
    }
  }

  /** A raw line as Python's reader returns it: never empty, a newline only at its end. */
  predicate ValidLine(s: string) {
    s != [] && forall i :: 0 <= i < |s| - 1 ==> s[i] != '\n'
  }

  /** Raw lines of one file: every line but the last ends in a newline. */
  predicate ValidLines(lines: seq<string>) {
    (forall i :: 0 <= i < |lines| ==> ValidLine(lines[i])) &&
    (forall i :: 0 <= i < |lines| - 1 ==> lines[i][|lines[i]| - 1] == '\n')
  }

  predicate ValidContent(c: Content) {
    ValidLines(c.Readable())
  }

  /** The files that `os.path.exists` reports, with their contents. */
  type FileSystem = map<string, Content>

  predicate ValidFileSystem(fs: FileSystem) {
    forall p :: p in fs ==> ValidContent(fs[p])
  }

  /** The outcome of one read call: the text read, or `UnicodeDecodeError`. */
  datatype Read<+T> = Got(value: T) | DecodeError

  /** An open text-mode file object; `pos` counts the lines already handed out. */
  class TextFile {
    const content: Content
    var pos: nat

    ghost predicate Valid()
      reads this
    {
      ValidContent(content) && pos <= |content.Readable()|
    }

    constructor Open(c: Content)
      requires ValidContent(c)
      ensures Valid() && content == c && pos == 0
    {
      content := c;
      pos := 0;
    }

    /** `file.readline()`: the next line, `""` at end of file, or the decode error. */
    method ReadLine() returns (r: Read<string>)
      requires Valid()
      modifies this
      ensures Valid()
      ensures old(pos) < |content.Readable()| ==>
                r == Got(content.Readable()[old(pos)]) && pos == old(pos) + 1
      ensures old(pos) == |content.Readable()| ==>
                pos == old(pos) && r == (if content.Decoded? then Got("") else DecodeError)
    {
      var lines := content.Readable();
      if pos < |lines| {
        r := Got(lines[pos]);
        pos := pos + 1;
      } else if content.Decoded? {
        r := Got("");
      } else {
        r := DecodeError;
      }
    }

    /** `file.readlines()`: every remaining line, or the decode error. */
    method ReadLines() returns (r: Read<seq<string>>)
      requires Valid()
      modifies this
      ensures Valid() && pos == |content.Readable()|
      ensures r == (if content.Decoded? then Got(content.lines[old(pos)..]) else DecodeError)
    {
      var lines := content.Readable();
      r := if content.Decoded? then Got(lines[pos..]) else DecodeError;
      pos := |lines|;
    }
  }
}
