/**
 * Parsing of the tool's directory and file listings (`list_files`,
 * myrclone7calisiyor.py:162-210). The two invocations (`lsd` for
 * directories, `lsl` for files) are inputs; their output text is parsed
 * line by line into `FileItem`s.
 */
module Listing {

  import opened Wrappers
  import opened Strings
  import opened Paths
  import opened Model

  /** Where the synthetic ".." entry points: the normalized parent, or the
      root when the parent is the current-directory placeholder. */
  function ParentPath(pl: Platform, path: string): (r: string)
    ensures '\\' !in r && r != "."
  {
    var parent := Normalize(pl, pl.parent(path));
    if parent == "." then "/" else parent
  }

  /** The synthetic ".." entry, present for a non-recursive listing of
      anything but the root. */
  function ParentEntries(pl: Platform, remote: string, path: string, recursive: bool): seq<FileItem> {
    if path != "/" && !recursive then [FileItem("..", ParentPath(pl, path), true, "", "", remote)] else []
  }

  /** The argument list of one listing invocation: `verb` ("lsd" for
      directories, "lsl" for files) on the remote-prefixed path, through the
      whole tree with `-R` or one level deep with `--max-depth 1`. */
  function ListCommand(exe: string, verb: string, remote: string, path: string, recursive: bool): seq<string> {
    [exe, verb, remote + path] + (if recursive then ["-R"] else ["--max-depth", "1"])
  }

  /** The entry one output line gives: none for a blank line or one with
      fewer than five fields; otherwise the name is every field from the
      fifth on, joined by single spaces, the modification time is fields
      two and three, and the size is field one for the file listing. */
  function LineEntries(pl: Platform, remote: string, path: string, recursive: bool,
                       dirs: bool, line: string): seq<FileItem>
  {
    var t := Strip(line);
    if t == "" then []
    else
      var parts := Fields(t);
      if |parts| < 5 then []
      else
        var name := JoinOn(parts[4..], ' ');
        [FileItem(name, if recursive then name else Normalize(pl, pl.join(path, name)),
                  dirs, if dirs then "" else parts[0], parts[1] + " " + parts[2], remote)]
  }

  /** The entries of a sequence of output lines, in line order. */
  function ListingEntries(pl: Platform, remote: string, path: string, recursive: bool,
                          dirs: bool, lines: seq<string>): seq<FileItem>
  {
    if lines == [] then []
    else ListingEntries(pl, remote, path, recursive, dirs, lines[..|lines| - 1])
         + LineEntries(pl, remote, path, recursive, dirs, lines[|lines| - 1])
  }

  /** The lines of an invocation's output that are parsed: none unless the
      exit code is 0 and the stripped output is not empty. */
  function OutputLines(returnCode: int, output: string): seq<string> {
    if returnCode == 0 && output != "" && Strip(output) != "" then SplitOn(Strip(output), '\n') else []
  }

  /** The entries one finished invocation contributes. */
  function OutputEntries(pl: Platform, remote: string, path: string, recursive: bool,
                         dirs: bool, returnCode: int, output: string): seq<FileItem>
  {
    ListingEntries(pl, remote, path, recursive, dirs, OutputLines(returnCode, output))
  }

  /** The message `list_files` raises for a failed invocation. */
  function ListingError(call: Invocation): string
    requires !call.Finished?
  {
    if call.TimedOut? then TimeoutMessage(OPERATION_TIMEOUT) else "Listeleme hatası: " + call.message
  }

  /** What `list_files` returns or raises, given what its two invocations
      came to: the `lsd` invocation runs first, and `lsl` only if `lsd`
      finished. A non-zero exit code is not an error; it only contributes
      no entries. */
  function ListingOf(pl: Platform, remote: string, path: string, recursive: bool,
                     lsd: Invocation, lsl: Invocation): Result<seq<FileItem>, string>
  {
    if !lsd.Finished? then Failure(ListingError(lsd))
    else if !lsl.Finished? then Failure(ListingError(lsl))
    else Success(ParentEntries(pl, remote, path, recursive)
                 + OutputEntries(pl, remote, path, recursive, true, lsd.returnCode, lsd.output)
                 + OutputEntries(pl, remote, path, recursive, false, lsl.returnCode, lsl.output))
  }

  /** `ListingOf` case by case, for callers that build it step by step. */
  lemma ListingOfCases(pl: Platform, remote: string, path: string, recursive: bool,
                       lsd: Invocation, lsl: Invocation)
    ensures !lsd.Finished? ==> ListingOf(pl, remote, path, recursive, lsd, lsl) == Failure(ListingError(lsd))
    ensures lsd.Finished? && !lsl.Finished? ==>
      ListingOf(pl, remote, path, recursive, lsd, lsl) == Failure(ListingError(lsl))
    ensures lsd.Finished? && lsl.Finished? ==>
      ListingOf(pl, remote, path, recursive, lsd, lsl)
        == Success(ParentEntries(pl, remote, path, recursive)
                   + OutputEntries(pl, remote, path, recursive, true, lsd.returnCode, lsd.output)
                   + OutputEntries(pl, remote, path, recursive, false, lsl.returnCode, lsl.output))
  {
  }

  /** The checks on one invocation's result before its output is read:
      exit code 0 and a non-empty stripped output. */
  method ParseOutput(pl: Platform, remote: string, path: string, recursive: bool,
                     dirs: bool, returnCode: int, output: string)
    returns (entries: seq<FileItem>)
    ensures entries == OutputEntries(pl, remote, path, recursive, dirs, returnCode, output)
  {
    entries := [];
    if returnCode == 0 && output != "" {
      var stdout := Strip(output);
      if stdout != "" {
        entries := ParseLines(pl, remote, path, recursive, dirs, SplitOn(stdout, '\n'));
      }
    }
  }

  /** The loop over the output lines: each line is stripped and split on
      whitespace, and a line with at least five fields adds one entry. */
  method ParseLines(pl: Platform, remote: string, path: string, recursive: bool,
                    dirs: bool, lines: seq<string>)
    returns (entries: seq<FileItem>)
    ensures entries == ListingEntries(pl, remote, path, recursive, dirs, lines)
  {
    entries := [];
    for j := 0 to |lines|
      invariant entries == ListingEntries(pl, remote, path, recursive, dirs, lines[..j])
    {
      assert lines[..j + 1][..j] == lines[..j];
      ghost var before := entries;
      var line := Strip(lines[j]);
      if line != "" {
        var parts := Fields(line);
        if |parts| >= 5 {
          var name := JoinOn(parts[4..], ' ');
          var entryPath := if recursive then name else Normalize(pl, pl.join(path, name));
          entries := entries + [FileItem(name, entryPath, dirs, if dirs then "" else parts[0],
                                         parts[1] + " " + parts[2], remote)];
        }
      }
      assert entries == before + LineEntries(pl, remote, path, recursive, dirs, lines[j]);
    }
    assert lines[..|lines|] == lines;
  }

  // ---------------------------------------------------------------- properties

  /** Whether a line has the five fields an entry needs. */
  predicate WideLine(line: string) {
    |Fields(Strip(line))| >= 5
  }

  function CountWide(lines: seq<string>): nat {
    if lines == [] then 0
    else CountWide(lines[..|lines| - 1]) + (if WideLine(lines[|lines| - 1]) then 1 else 0)
  }

  /** Each line with at least five fields gives exactly one entry and every
      other line gives none; every entry is of the listing's kind, belongs to
      the listed remote, and a directory carries no size. */
  lemma {:induction false} ListingEntriesFacts(pl: Platform, remote: string, path: string,
                                               recursive: bool, dirs: bool, lines: seq<string>)
    ensures var es := ListingEntries(pl, remote, path, recursive, dirs, lines);
      && |es| == CountWide(lines)
      && forall e :: e in es ==>
           && e.isDir == dirs && e.remote == remote && (dirs ==> e.size == "")
           && (recursive ==> e.path == e.name)
           && (!recursive ==> '\\' !in e.path)
  {
    if lines != [] {
      ListingEntriesFacts(pl, remote, path, recursive, dirs, lines[..|lines| - 1]);
    }
  }

  /** An entry read back from a line whose fields are separated by single
      spaces (size, date, time, a fourth field, then the name's words): the
      name, size and modification time are recovered. */
  lemma LineRoundTrip(pl: Platform, remote: string, path: string, recursive: bool, dirs: bool,
                      size: string, date: string, time: string, other: string, nameWords: seq<string>)
    requires IsWord(size) && IsWord(date) && IsWord(time) && IsWord(other)
    requires AllWords(nameWords) && nameWords != []
    ensures var es := LineEntries(pl, remote, path, recursive, dirs,
                                  JoinOn([size, date, time, other] + nameWords, ' '));
      && |es| == 1
      && es[0].name == JoinOn(nameWords, ' ')
      && es[0].size == (if dirs then "" else size)
      && es[0].modified == date + " " + time
      && es[0].isDir == dirs
  {
    var ws := [size, date, time, other] + nameWords;
    assert AllWords(ws) by {
      forall i | 0 <= i < |ws| ensures IsWord(ws[i]) {
        if i >= 4 { assert ws[i] == nameWords[i - 4]; }
      }
    }
    StripOfJoin(ws);
    FieldsOfJoin(ws);
    assert ws[4..] == nameWords;
  }

  /** Directories, then files: in a sequence made of directory entries
      followed by file entries, no directory follows a file. */
  lemma KindsInOrder(ds: seq<FileItem>, fs: seq<FileItem>)
    requires forall e :: e in ds ==> e.isDir
    requires forall e :: e in fs ==> !e.isDir
    ensures var v := ds + fs; forall i, j :: 0 <= i < j < |v| && !v[i].isDir ==> !v[j].isDir
  {
    var v := ds + fs;
    forall i, j | 0 <= i < j < |v| && !v[i].isDir ensures !v[j].isDir {
      assert v[j] == fs[j - |ds|] && v[j] in fs;
    }
  }

  /** A successful listing is the ".." entry (when the listing is not
      recursive and not of the root) first, then one directory per wide line
      of the `lsd` output, then one file per wide line of the `lsl` output;
      directories therefore all come before files. */
  lemma ListingLayout(pl: Platform, remote: string, path: string, recursive: bool,
                      lsd: Invocation, lsl: Invocation)
    requires ListingOf(pl, remote, path, recursive, lsd, lsl).Success?
    ensures var v := ListingOf(pl, remote, path, recursive, lsd, lsl).value;
      var hasParent := path != "/" && !recursive;
      && |v| == (if hasParent then 1 else 0)
                + CountWide(OutputLines(lsd.returnCode, lsd.output))
                + CountWide(OutputLines(lsl.returnCode, lsl.output))
      && (hasParent ==> v[0] == FileItem("..", ParentPath(pl, path), true, "", "", remote))
      && (forall i, j :: 0 <= i < j < |v| && !v[i].isDir ==> !v[j].isDir)
      && (forall e :: e in v ==> e.remote == remote)
  {
    var v := ListingOf(pl, remote, path, recursive, lsd, lsl).value;
    var head := ParentEntries(pl, remote, path, recursive);
    var ds := OutputEntries(pl, remote, path, recursive, true, lsd.returnCode, lsd.output);
    var fs := OutputEntries(pl, remote, path, recursive, false, lsl.returnCode, lsl.output);
    ListingEntriesFacts(pl, remote, path, recursive, true, OutputLines(lsd.returnCode, lsd.output));
    ListingEntriesFacts(pl, remote, path, recursive, false, OutputLines(lsl.returnCode, lsl.output));
    assert v == (head + ds) + fs;
    KindsInOrder(head + ds, fs);
  }

  /** A listing fails exactly when one of its invocations did not finish:
      a timeout is reported with the listing budget in minutes, any other
      exception with its message; `lsl`'s outcome matters only when `lsd`
      finished. */
  lemma ListingFailure(pl: Platform, remote: string, path: string, recursive: bool,
                       lsd: Invocation, lsl: Invocation)
    ensures var r := ListingOf(pl, remote, path, recursive, lsd, lsl);
      && (r.Failure? <==> !lsd.Finished? || !lsl.Finished?)
      && (lsd.TimedOut? || (lsd.Finished? && lsl.TimedOut?) ==> r == Failure("Timeout (5 dakika)"))
      && (lsd.Raised? ==> r == Failure("Listeleme hatası: " + lsd.message))
      && (lsd.Finished? && lsl.Raised? ==> r == Failure("Listeleme hatası: " + lsl.message))
  {
    assert IntToString(OPERATION_TIMEOUT / 60) == "5";
    assert TimeoutMessage(OPERATION_TIMEOUT) == "Timeout (5 dakika)";
  }
}
