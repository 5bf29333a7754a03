/**
 * The storage adapter (FileManager): synchronous whole-file operations over a
 * file system modelled as a map from normalised path strings to nodes.
 */
module FileSystem {
  import opened JavaLang

  /** java.io.File.separatorChar on the host. */
  const Separator: char := '/'

  /** A file system entry: a regular file with its text, or a directory; both carry a last-modified time in milliseconds. */
  datatype Node = File(content: string, mtime: Int64) | Dir(mtime: Int64)
  {
    /** The same entry with its last-modified time replaced. */
    function WithMtime(t: Int64): Node
    {
      match this
      case File(c, _) => File(c, t)
      case Dir(_) => Dir(t)
    }
  }

  type Disk = map<string, Node>

  datatype FileException = NullPointerException | IllegalArgumentException(message: string)

  // ---------------------------------------------------------------------------
  // Reading lines as BufferedReader.readLine does

  predicate IsLineTerminator(c: char)
  {
    c == '\n' || c == '\r'
  }

  predicate LineFree(s: string)
  {
    forall i :: 0 <= i < |s| ==> !IsLineTerminator(s[i])
  }

  /** The position of the first line terminator in s, or |s| when there is none. */
  function TerminatorIndex(s: string): (i: nat)
    ensures i <= |s|
    ensures LineFree(s[..i])
    ensures i < |s| ==> IsLineTerminator(s[i])
  {
    if s == [] || IsLineTerminator(s[0]) then 0
    else
      var j := TerminatorIndex(s[1..]);
      assert s[..1 + j] == [s[0]] + s[1..][..j];
      1 + j
  }

  /**
   * The successive results of readLine on a reader over s: a line ends at
   * "\n", "\r" or "\r\n", the terminator is not part of the line, and a
   * terminator at the very end does not start another line.
   */
  function ReadLines(s: string): (lines: seq<string>)
    ensures forall k :: 0 <= k < |lines| ==> LineFree(lines[k])
    decreases |s|
  {
    if s == [] then []
    else
      var i := TerminatorIndex(s);
      if i == |s| then [s]
      else
        var next := if s[i] == '\r' && i + 1 < |s| && s[i + 1] == '\n' then i + 2 else i + 1;
        [s[..i]] + ReadLines(s[next..])
  }

  /** The lines with "\n" between consecutive ones, none before the first or after the last. */
  function JoinLines(lines: seq<string>): string
  {
    if lines == [] then ""
    else if |lines| == 1 then lines[0]
    else JoinLines(lines[..|lines| - 1]) + "\n" + lines[|lines| - 1]
  }

  /** After a terminator-free prefix, the first terminator is where the rest begins (when the rest starts with one). */
  lemma {:induction false} TerminatorAfter(s: string, rest: string)
    requires LineFree(s)
    requires rest == [] || IsLineTerminator(rest[0])
    ensures TerminatorIndex(s + rest) == |s|
    decreases |s|
  {
    if s == [] {
      assert s + rest == rest;
    } else {
      assert !IsLineTerminator((s + rest)[0]);
      assert (s + rest)[1..] == s[1..] + rest;
      TerminatorAfter(s[1..], rest);
    }
  }

  /** A string without line terminators reads back as itself. */
  lemma ReadLineFree(s: string)
    requires LineFree(s)
    ensures JoinLines(ReadLines(s)) == s
  {
    if s != [] {
      TerminatorAfter(s, []);
      assert s + [] == s;
    }
  }

  /** A single trailing line terminator is lost on reading. */
  lemma ReadDropsTrailingTerminator(s: string, t: char)
    requires LineFree(s) && IsLineTerminator(t)
    ensures JoinLines(ReadLines(s + [t])) == s
  {
    var u := s + [t];
    assert u[..|s|] == s;
    TerminatorAfter(s, [t]);
    assert u[|s| + 1..] == [];
  }

  // ---------------------------------------------------------------------------
  // The file system as seen by the FileManager operations

  /** What readFileContent returns: "" for a missing path or a directory, else the file's lines joined by "\n". */
  function ReadContent(disk: Disk, p: string): string
  {
    if p in disk && disk[p].File? then JoinLines(ReadLines(disk[p].content)) else ""
  }

  /** File.lastModified(): 0 for a missing path. */
  function LastModified(disk: Disk, p: string): Int64
  {
    if p in disk then disk[p].mtime else 0
  }

  /** The effect of writeToFile: only an absent path is created, holding the content ("" for null) and stamped now. */
  function WriteIfAbsent(disk: Disk, p: string, content: Option<string>, now: Int64): Disk
  {
    if p in disk then disk else disk[p := File(if content.None? then "" else content.value, now)]
  }

  /** p names an entry directly inside directory d. */
  predicate IsChild(d: string, p: string)
  {
    && |p| > |d| + 1
    && p[..|d|] == d
    && p[|d|] == Separator
    && forall i :: |d| < i < |p| ==> p[i] != Separator
  }

  /** File.delete() succeeds on p: a regular file, or a directory with no entries. */
  predicate Deletable(disk: Disk, p: string)
    requires p in disk
  {
    disk[p].File? || forall q :: q in disk ==> !IsChild(p, q)
  }

  /** The entries File.listFiles() lists for d. */
  function ChildrenOf(disk: Disk, d: string): set<string>
  {
    set p | p in disk && IsChild(d, p)
  }

  /** The disk after File.delete() is called on every path of ps. */
  function DeleteAll(disk: Disk, ps: set<string>): Disk
  {
    map p | p in disk && !(p in ps && Deletable(disk, p)) :: disk[p]
  }

  /** The effect of clearDirectory on an existing directory d. */
  function Cleared(disk: Disk, d: string): Disk
  {
    DeleteAll(disk, ChildrenOf(disk, d))
  }

  /** An entry inside a child of d is not itself a child of d. */
  lemma GrandchildNotChild(d: string, c: string, q: string)
    requires IsChild(d, c) && IsChild(c, q)
    ensures !IsChild(d, q)
  {
    assert q[|c|] == Separator;
  }

  /** What clearing d removes: every regular file directly in d and every empty subdirectory, and nothing else. */
  lemma ClearedEffect(disk: Disk, d: string, p: string)
    ensures p in Cleared(disk, d) ==> p in disk && Cleared(disk, d)[p] == disk[p]
    ensures p in disk && !IsChild(d, p) ==> p in Cleared(disk, d)
    ensures p in disk && IsChild(d, p) && disk[p].File? ==> p !in Cleared(disk, d)
    ensures p in disk && IsChild(d, p) && disk[p].Dir? ==>
              (p in Cleared(disk, d) <==> exists q :: q in disk && IsChild(p, q))
  {
  }

  /** setLastModified on an existing entry changes its timestamp and nothing else. */
  lemma SetMtimeOnlyTimestamp(disk: Disk, f: string, t: Int64, p: string)
    requires f in disk
    ensures p in disk[f := disk[f].WithMtime(t)] <==> p in disk
    ensures p in disk && p != f ==> disk[f := disk[f].WithMtime(t)][p] == disk[p]
    ensures disk[f := disk[f].WithMtime(t)][f].mtime == t
    ensures disk[f].File? ==> disk[f := disk[f].WithMtime(t)][f] == File(disk[f].content, t)
    ensures disk[f].Dir? ==> disk[f := disk[f].WithMtime(t)][f].Dir?
  {
  }

  /** The FileManager: it owns the file system it reads and writes. */
  class FileManager {
    var disk: Disk

    constructor(initial: Disk)
      ensures disk == initial
    {
      disk := initial;
    }

    /** writeToFile: never overwrites; creates an absent file with the content ("" when null). */
    method WriteToFile(file: string, fileContent: Option<string>, now: Int64)
      modifies this
      ensures disk == WriteIfAbsent(old(disk), file, fileContent, now)
      ensures file in old(disk) ==> disk == old(disk)
      ensures file !in old(disk) ==> disk.Keys == old(disk.Keys) + {file} && disk[file].mtime == now
      ensures file !in old(disk) && fileContent.None? ==> disk[file] == File("", now) && ReadContent(disk, file) == ""
      ensures file !in old(disk) && fileContent.Some? && LineFree(fileContent.value) ==>
                ReadContent(disk, file) == fileContent.value
    {
      if file !in disk {
        var text := "";
        if fileContent.Some? {
          text := fileContent.value;
        }
        disk := disk[file := File(text, now)];
        if fileContent.Some? && LineFree(text) {
          ReadLineFree(text);
        }
      }
    }

    /** readFileContent: appends each line read, preceded by "\n" from the second line on. */
    method ReadFileContent(file: string) returns (content: string)
      ensures content == ReadContent(disk, file)
      ensures file !in disk ==> content == ""
      ensures file in disk && disk[file].File? && LineFree(disk[file].content) ==> content == disk[file].content
    {
      content := "";
      if file in disk && disk[file].File? {
        var lines := ReadLines(disk[file].content);
        var newLine := false;
        var i := 0;
        while i < |lines|
          invariant 0 <= i <= |lines|
          invariant newLine == (i > 0)
          invariant content == JoinLines(lines[..i])
        {
          if newLine {
            content := content + "\n";
          }
          content := content + lines[i];
          assert lines[..i + 1][..i] == lines[..i];
          newLine := true;
          i := i + 1;
        }
        assert lines[..|lines|] == lines;
        if LineFree(disk[file].content) {
          ReadLineFree(disk[file].content);
        }
      }
    }

    /** getLastModifiedTime: the entry's timestamp, 0 when the path is missing. */
    method GetLastModifiedTime(file: string) returns (time: Int64)
      ensures file in disk ==> time == disk[file].mtime
      ensures file !in disk ==> time == 0
    {
      time := if file in disk then disk[file].mtime else 0;
    }

    /** setLastModifiedTime: a negative time throws; a missing path gives false; otherwise only the timestamp changes. */
    method SetLastModifiedTime(file: string, time: Int64) returns (r: Result<bool, FileException>)
      modifies this
      ensures time < 0 ==> r == Thrown(IllegalArgumentException("Negative time")) && disk == old(disk)
      ensures time >= 0 && file !in old(disk) ==> r == Returned(false) && disk == old(disk)
      ensures time >= 0 && file in old(disk) ==>
                r == Returned(true) && disk == old(disk)[file := old(disk)[file].WithMtime(time)]
    {
      if time < 0 {
        return Thrown(IllegalArgumentException("Negative time"));
      }
      if file !in disk {
        return Returned(false);
      }
      disk := disk[file := disk[file].WithMtime(time)];
      r := Returned(true);
    }

    /** exists: the path names a file or a directory. */
    method Exists(file: string) returns (b: bool)
      ensures b <==> file in disk
    {
      b := file in disk;
    }

    /**
     * clearDirectory: on an existing directory, calls delete on every entry
     * listFiles() returns; a missing path is left alone; on a regular file
     * listFiles() is null and the loop throws.
     */
    method ClearDirectory(directory: string) returns (r: Outcome<FileException>)
      modifies this
      ensures directory !in old(disk) ==> r == Completed && disk == old(disk)
      ensures directory in old(disk) && old(disk)[directory].File? ==>
                r == Threw(NullPointerException) && disk == old(disk)
      ensures directory in old(disk) && old(disk)[directory].Dir? ==>
                r == Completed && disk == Cleared(old(disk), directory)
    {
      if directory !in disk {
        return Completed;
      }
      if disk[directory].File? {
        return Threw(NullPointerException);
      }
      ghost var before := disk;
      var files := set p | p in disk && IsChild(directory, p);
      var remaining := files;
      while remaining != {}
        invariant remaining <= files
        invariant disk == DeleteAll(before, files - remaining)
        decreases |remaining|
      {
        var file :| file in remaining;
        ghost var done := files - remaining;
        DeleteStep(before, directory, files, done, file);
        if disk[file].File? || forall q | q in disk :: !IsChild(file, q) {
          disk := disk - {file};
        }
        remaining := remaining - {file};
        assert files - remaining == done + {file};
      }
      assert files == ChildrenOf(before, directory) && files - remaining == files;
      r := Completed;
    }
  }

  /** Deleting one more child of d: whether delete succeeds on it does not depend on the children deleted before. */
  lemma DeleteStep(before: Disk, d: string, files: set<string>, done: set<string>, f: string)
    requires files == ChildrenOf(before, d)
    requires done <= files && f in files && f !in done
    ensures f in DeleteAll(before, done)
    ensures DeleteAll(before, done)[f] == before[f]
    ensures Deletable(DeleteAll(before, done), f) <==> Deletable(before, f)
    ensures Deletable(before, f) ==> DeleteAll(before, done + {f}) == DeleteAll(before, done) - {f}
    ensures !Deletable(before, f) ==> DeleteAll(before, done + {f}) == DeleteAll(before, done)
  {
    var cur := DeleteAll(before, done);
    forall q | q in before && IsChild(f, q)
      ensures q in cur
    {
      GrandchildNotChild(d, f, q);
    }
  }
}
