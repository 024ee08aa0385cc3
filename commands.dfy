/**
 * The argument list of one external tool invocation (`_create_process`,
 * myrclone7calisiyor.py:212-226). Starting the process is not modelled here.
 */
module Commands {

  /** Always passed: show progress, be verbose, let the tool run three
      transfers of its own at once. */
  const PROGRESS_FLAGS: seq<string> := ["--progress", "--verbose", "--transfers", "3"]

  /** The options a copy or sync takes on request. */
  const TRANSFER_OPTIONS: set<string> := {"--ignore-existing", "--ignore-errors", "--dry-run"}

  /** How many positional words (subcommand and paths) a command type takes:
      copy and sync name a source and a destination, delete only a source,
      and any other type puts no subcommand at all. */
  function PositionalCount(cmdType: string): nat {
    if cmdType == "copy" || cmdType == "sync" then 3
    else if cmdType == "delete" then 2
    else 0
  }

  predicate Transfers(cmdType: string) {
    cmdType == "copy" || cmdType == "sync"
  }

  /** How many of the requested options a command carries: one per flag
      set, and none unless the command transfers. */
  function OptionCount(cmdType: string, isTest: bool, ignoreExisting: bool, ignoreErrors: bool): nat {
    if Transfers(cmdType) then
      (if ignoreExisting then 1 else 0) + (if ignoreErrors then 1 else 0) + (if isTest then 1 else 0)
    else 0
  }

  /** What a command line for `cmdType` must look like: the executable,
      the subcommand with its paths, `--create-empty-src-dirs` for a
      directory copy only, the four progress words, and then the requested
      options and nothing else. A directory copy uses `copy`, a file copy
      `copyfile`; skipping existing files, ignoring errors and dry run
      appear only for copy and sync, and only when asked for. The length
      fixes each requested option to a single occurrence. */
  predicate CommandSpec(cmd: seq<string>, exe: string, cmdType: string, source: string, dest: string,
                        isDir: bool, isTest: bool, ignoreExisting: bool, ignoreErrors: bool)
  {
    var n := 1 + PositionalCount(cmdType);
    var p := if cmdType == "copy" && isDir then n + 1 else n;
    && |cmd| == p + 4 + OptionCount(cmdType, isTest, ignoreExisting, ignoreErrors)
    && cmd[0] == exe
    && (cmdType == "copy" ==> cmd[1..n] == [if isDir then "copy" else "copyfile", source, dest])
    && (cmdType == "sync" ==> cmd[1..n] == ["sync", source, dest])
    && (cmdType == "delete" ==> cmd[1..n] == [if isDir then "purge" else "delete", source])
    && cmd[n..p] == (if cmdType == "copy" && isDir then ["--create-empty-src-dirs"] else [])
    && cmd[p..p + 4] == PROGRESS_FLAGS
    && (forall i :: p + 4 <= i < |cmd| ==> cmd[i] in TRANSFER_OPTIONS)
    && ("--ignore-existing" in cmd[p + 4..] <==> Transfers(cmdType) && ignoreExisting)
    && ("--ignore-errors" in cmd[p + 4..] <==> Transfers(cmdType) && ignoreErrors)
    && ("--dry-run" in cmd[p + 4..] <==> Transfers(cmdType) && isTest)
  }

  /** The shape of a command line, read from its four parts: the executable
      with the positional words, the directory-copy option, the progress
      options, and the requested options. */
  lemma CommandShape(cmd: seq<string>, head: seq<string>, created: seq<string>, opts: seq<string>,
                     exe: string, cmdType: string, source: string, dest: string,
                     isDir: bool, isTest: bool, ignoreExisting: bool, ignoreErrors: bool)
    requires cmd == head + created + PROGRESS_FLAGS + opts
    requires |head| == 1 + PositionalCount(cmdType) && head[0] == exe
    requires cmdType == "copy" ==> head[1..] == [if isDir then "copy" else "copyfile", source, dest]
    requires cmdType == "sync" ==> head[1..] == ["sync", source, dest]
    requires cmdType == "delete" ==> head[1..] == [if isDir then "purge" else "delete", source]
    requires created == if cmdType == "copy" && isDir then ["--create-empty-src-dirs"] else []
    requires |opts| == OptionCount(cmdType, isTest, ignoreExisting, ignoreErrors)
    requires forall i :: 0 <= i < |opts| ==> opts[i] in TRANSFER_OPTIONS
    requires "--ignore-existing" in opts <==> Transfers(cmdType) && ignoreExisting
    requires "--ignore-errors" in opts <==> Transfers(cmdType) && ignoreErrors
    requires "--dry-run" in opts <==> Transfers(cmdType) && isTest
    ensures CommandSpec(cmd, exe, cmdType, source, dest, isDir, isTest, ignoreExisting, ignoreErrors)
  {
    FourParts(head, created, PROGRESS_FLAGS, opts);
  }

  /** The slices of a sequence made of four parts are the parts. */
  lemma FourParts<T>(a: seq<T>, b: seq<T>, c: seq<T>, d: seq<T>)
    ensures var s := a + b + c + d;
      && s[..|a|] == a && (|a| > 0 ==> s[1..|a|] == a[1..])
      && s[|a|..|a| + |b|] == b
      && s[|a| + |b|..|a| + |b| + |c|] == c
      && s[|a| + |b| + |c|..] == d
  {
    var s := a + b + c + d;
    assert s == a + (b + (c + d));
    assert (b + (c + d))[..|b|] == b;
    assert (c + d)[..|c|] == c;
  }

  /** Appends the requested options, which only transfers take, in the
      order `--ignore-existing`, `--ignore-errors`, `--dry-run`. */
  method AppendOptions(cmd: seq<string>, cmdType: string, isTest: bool, ignoreExisting: bool, ignoreErrors: bool)
    returns (cmd': seq<string>)
    ensures |cmd'| == |cmd| + OptionCount(cmdType, isTest, ignoreExisting, ignoreErrors)
    ensures cmd'[..|cmd|] == cmd
    ensures forall i :: |cmd| <= i < |cmd'| ==> cmd'[i] in TRANSFER_OPTIONS
    ensures "--ignore-existing" in cmd'[|cmd|..] <==> Transfers(cmdType) && ignoreExisting
    ensures "--ignore-errors" in cmd'[|cmd|..] <==> Transfers(cmdType) && ignoreErrors
    ensures "--dry-run" in cmd'[|cmd|..] <==> Transfers(cmdType) && isTest
  {
    cmd' := cmd;
    ghost var opts: seq<string> := [];
    if Transfers(cmdType) {
      if ignoreExisting {
        cmd' := cmd' + ["--ignore-existing"];
        opts := opts + ["--ignore-existing"];
      }
      if ignoreErrors {
        cmd' := cmd' + ["--ignore-errors"];
        opts := opts + ["--ignore-errors"];
      }
      if isTest {
        cmd' := cmd' + ["--dry-run"];
        opts := opts + ["--dry-run"];
      }
    }
    assert cmd' == cmd + opts;
  }

  /** Builds the command line by appending to it, as `_create_process`
      does; the result meets `CommandSpec`. */
  method BuildCommand(exe: string, cmdType: string, source: string, dest: string,
                      isDir: bool, isTest: bool, ignoreExisting: bool, ignoreErrors: bool)
    returns (cmd: seq<string>)
    ensures CommandSpec(cmd, exe, cmdType, source, dest, isDir, isTest, ignoreExisting, ignoreErrors)
  {
    cmd := [exe];
    ghost var created: seq<string> := [];
    if cmdType == "copy" {
      cmd := cmd + [if !isDir then "copyfile" else "copy", source, dest];
      if isDir {
        cmd := cmd + ["--create-empty-src-dirs"];
        created := ["--create-empty-src-dirs"];
      }
    } else if cmdType == "sync" {
      cmd := cmd + ["sync", source, dest];
    } else if cmdType == "delete" {
      cmd := cmd + [if isDir then "purge" else "delete", source];
    }
    ghost var head := cmd[..|cmd| - |created|];
    assert cmd == head + created;
    assert head[1..] == cmd[1..|cmd| - |created|];
    cmd := cmd + PROGRESS_FLAGS;
    ghost var fixed := cmd;
    cmd := AppendOptions(cmd, cmdType, isTest, ignoreExisting, ignoreErrors);
    ghost var opts := cmd[|fixed|..];
    assert cmd == fixed + opts;
    CommandShape(cmd, head, created, opts, exe, cmdType, source, dest,
                 isDir, isTest, ignoreExisting, ignoreErrors);
  }
}
