/**
 * The file manager's service object (`RCloneService`,
 * myrclone7calisiyor.py:128-355): the single-flight `running` flag, the
 * process being waited for and the set of processes still tracked, and
 * the two workers that copy a selection and compare two trees.
 *
 * Everything the operating system does is an input. A listing invocation
 * is answered by `run`, a function of its argument list; the copy of each
 * selected item comes to a given `Invocation`; the foreground's request to
 * stop arrives before the check of iteration `cancelAt`. Workers run to
 * completion one call at a time.
 */
module Service {

  import opened Wrappers
  import opened Paths
  import opened Model
  import opened Commands
  import opened Listing
  import opened Compare
  import opened Transfer

  /** A started external process, as far as the service can observe it.
      Whether the operating system process has ended is not state of the
      model: the service learns it only when it waits for the process or
      polls it, and those answers are inputs. */
  class Process {
    /** The argument list it was started with. */
    const args: seq<string>
    /** Its exit status has been collected: `communicate` returned, or
        `poll()` found it ended. A process not yet waited for may still have
        ended on its own. */
    var waited: bool
    /** It has been asked to terminate. */
    var terminateRequested: bool

    constructor (args: seq<string>)
      ensures this.args == args && !waited && !terminateRequested
    {
      this.args := args;
      waited := false;
      terminateRequested := false;
    }

    /** `communicate` returned: the process has ended and is waited for. */
    method Exit()
      modifies this
      ensures waited && terminateRequested == old(terminateRequested)
    {
      waited := true;
    }

    /** `poll()`: `ended` is whether the operating system process has
        terminated. The answer is "still running" exactly when it has not
        and its status was not collected before; an ended process is
        waited for from then on. */
    method Poll(ended: bool) returns (stillRunning: bool)
      modifies this
      ensures stillRunning == (!old(waited) && !ended)
      ensures waited == (old(waited) || ended)
      ensures terminateRequested == old(terminateRequested)
    {
      if !waited && ended {
        waited := true;
      }
      stillRunning := !waited;
    }

    /** `terminate()`: a process not yet waited for is signalled; once its
        exit status is collected, `Popen.terminate` does nothing. */
    method Terminate()
      modifies this
      ensures waited == old(waited)
      ensures terminateRequested == (old(terminateRequested) || !waited)
    {
      if !waited {
        terminateRequested := true;
      }
    }
  }

  /** `[f for f in files if f.name != ".."]`. */
  function DropParentEntries(files: seq<FileItem>): (kept: seq<FileItem>)
    ensures forall f :: f in kept <==> f in files && f.name != ".."
    ensures forall f :: multiset(kept)[f] == if f.name == ".." then 0 else multiset(files)[f]
    ensures (forall f :: f in files ==> f.name != "..") ==> kept == files
  {
    if files == [] then []
    else
      var init := files[..|files| - 1];
      var f := files[|files| - 1];
      assert files == init + [f];
      assert forall x :: x in files <==> x in init || x == f;
      DropParentEntries(init) + (if f.name != ".." then [f] else [])
  }

  /** The filter keeps the listing's order: filtering a concatenation is
      the concatenation of the filtered parts. */
  lemma {:induction false} DropParentAppend(a: seq<FileItem>, b: seq<FileItem>)
    ensures DropParentEntries(a + b) == DropParentEntries(a) + DropParentEntries(b)
  {
    if b == [] {
      assert a + b == a;
    } else {
      var init := b[..|b| - 1];
      var f := b[|b| - 1];
      DropParentAppend(a, init);
      SnocOfAppend(a, b);
      var tail := if f.name != ".." then [f] else [];
      assert DropParentEntries(a + b) == DropParentEntries(a + init) + tail;
      Regroup(DropParentEntries(a), DropParentEntries(init), tail);
    }
  }

  lemma SnocOfAppend<T>(a: seq<T>, b: seq<T>)
    requires b != []
    ensures (a + b)[..|a + b| - 1] == a + b[..|b| - 1] && (a + b)[|a + b| - 1] == b[|b| - 1]
  {
  }

  lemma Regroup<T>(x: seq<T>, y: seq<T>, z: seq<T>)
    ensures (x + y) + z == x + (y + z)
  {
  }

  /** A single entry is kept exactly when it is not named "..". */
  lemma DropParentSingle(f: FileItem)
    ensures DropParentEntries([f]) == if f.name == ".." then [] else [f]
  {
    assert [f][..0] == [];
  }

  /** How many items the copy worker attempts: none when it finds the
      service stopped, otherwise every item up to the one before whose
      check the stop request arrives. */
  function Attempted(wasRunning: bool, cancelAt: nat, count: nat): (n: nat)
    ensures n <= count
    ensures !wasRunning ==> n == 0
    ensures wasRunning && cancelAt >= count ==> n == count
  {
    if !wasRunning then 0 else if cancelAt < count then cancelAt else count
  }

  /** What the comparison worker hands to its callback: nothing when a
      listing fails, otherwise the classification of both recursive
      listings with ".." entries dropped. */
  function CompareRun(pl: Platform, exe: string, leftRemote: string, leftPath: string,
                      rightRemote: string, rightPath: string, criteria: seq<string>,
                      run: seq<string> -> Invocation): Option<ComparisonResult>
  {
    var left := ListingOf(pl, leftRemote, leftPath, true,
                          run(ListCommand(exe, "lsd", leftRemote, leftPath, true)),
                          run(ListCommand(exe, "lsl", leftRemote, leftPath, true)));
    var right := ListingOf(pl, rightRemote, rightPath, true,
                           run(ListCommand(exe, "lsd", rightRemote, rightPath, true)),
                           run(ListCommand(exe, "lsl", rightRemote, rightPath, true)));
    if left.Failure? || right.Failure? then None
    else Some(Classify(pl, criteria, DropParentEntries(left.value), DropParentEntries(right.value)))
  }

  /** The comparison produces a result exactly when all four listing
      invocations finish. */
  lemma CompareRunOutcome(pl: Platform, exe: string, leftRemote: string, leftPath: string,
                          rightRemote: string, rightPath: string, criteria: seq<string>,
                          run: seq<string> -> Invocation)
    ensures CompareRun(pl, exe, leftRemote, leftPath, rightRemote, rightPath, criteria, run).Some?
        <==> && run(ListCommand(exe, "lsd", leftRemote, leftPath, true)).Finished?
             && run(ListCommand(exe, "lsl", leftRemote, leftPath, true)).Finished?
             && run(ListCommand(exe, "lsd", rightRemote, rightPath, true)).Finished?
             && run(ListCommand(exe, "lsl", rightRemote, rightPath, true)).Finished?
  {
    ListingFailure(pl, leftRemote, leftPath, true,
                   run(ListCommand(exe, "lsd", leftRemote, leftPath, true)),
                   run(ListCommand(exe, "lsl", leftRemote, leftPath, true)));
    ListingFailure(pl, rightRemote, rightPath, true,
                   run(ListCommand(exe, "lsd", rightRemote, rightPath, true)),
                   run(ListCommand(exe, "lsl", rightRemote, rightPath, true)));
  }

  /** A recursive listing has no synthetic ".." entry, so when the tool
      itself named no entry "..", the comparison is the classification of
      the two full listings. */
  lemma CompareRunFullListings(pl: Platform, exe: string, leftRemote: string, leftPath: string,
                               rightRemote: string, rightPath: string, criteria: seq<string>,
                               run: seq<string> -> Invocation)
    ensures var left := ListingOf(pl, leftRemote, leftPath, true,
                                  run(ListCommand(exe, "lsd", leftRemote, leftPath, true)),
                                  run(ListCommand(exe, "lsl", leftRemote, leftPath, true)));
      var right := ListingOf(pl, rightRemote, rightPath, true,
                             run(ListCommand(exe, "lsd", rightRemote, rightPath, true)),
                             run(ListCommand(exe, "lsl", rightRemote, rightPath, true)));
      left.Success? && right.Success?
      && (forall f :: f in left.value ==> f.name != "..")
      && (forall f :: f in right.value ==> f.name != "..") ==>
        CompareRun(pl, exe, leftRemote, leftPath, rightRemote, rightPath, criteria, run)
          == Some(Classify(pl, criteria, left.value, right.value))
  {
  }

  class RCloneService {
    /** The tool's executable. */
    const rclonePath: string
    /** An operation is in progress. */
    var running: bool
    /** The copy process being waited for, if any. */
    var currentProcess: Process?
    /** Every started process not yet known to have been waited for. */
    var activeProcesses: set<Process>

    constructor (rclonePath: string)
      ensures this.rclonePath == rclonePath
      ensures !running && currentProcess == null && activeProcesses == {}
    {
      this.rclonePath := rclonePath;
      running := false;
      currentProcess := null;
      activeProcesses := {};
    }

    /** `list_files`: the ".." entry when due, then the directories of the
        `lsd` invocation, then the files of the `lsl` invocation; a listing
        invocation that overran or raised fails the whole listing. */
    method ListFiles(pl: Platform, remote: string, path: string, recursive: bool,
                     run: seq<string> -> Invocation)
      returns (r: Result<seq<FileItem>, string>)
      ensures r == ListingOf(pl, remote, path, recursive,
                             run(ListCommand(rclonePath, "lsd", remote, path, recursive)),
                             run(ListCommand(rclonePath, "lsl", remote, path, recursive)))
    {
      var files: seq<FileItem> := [];
      if path != "/" && !recursive {
        files := files + [FileItem("..", ParentPath(pl, path), true, "", "", remote)];
      }
      assert files == ParentEntries(pl, remote, path, recursive);
      var lsd := run(ListCommand(rclonePath, "lsd", remote, path, recursive));
      ListingOfCases(pl, remote, path, recursive, lsd, run(ListCommand(rclonePath, "lsl", remote, path, recursive)));
      if !lsd.Finished? {
        return Failure(ListingError(lsd));
      }
      var dirs := ParseOutput(pl, remote, path, recursive, true, lsd.returnCode, lsd.output);
      files := files + dirs;
      var lsl := run(ListCommand(rclonePath, "lsl", remote, path, recursive));
      if !lsl.Finished? {
        return Failure(ListingError(lsl));
      }
      var plain := ParseOutput(pl, remote, path, recursive, false, lsl.returnCode, lsl.output);
      files := files + plain;
      r := Success(files);
    }

    /** `_create_process`: builds the command line and starts a process for
        it, which is then tracked. */
    method CreateProcess(cmdType: string, source: string, dest: string,
                         isDir: bool, isTest: bool, ignoreExisting: bool, ignoreErrors: bool)
      returns (p: Process)
      modifies this
      ensures fresh(p) && !p.waited && !p.terminateRequested
      ensures CommandSpec(p.args, rclonePath, cmdType, source, dest, isDir, isTest, ignoreExisting, ignoreErrors)
      ensures activeProcesses == old(activeProcesses) + {p}
      ensures running == old(running) && currentProcess == old(currentProcess)
    {
      var cmd := BuildCommand(rclonePath, cmdType, source, dest, isDir, isTest, ignoreExisting, ignoreErrors);
      p := new Process(cmd);
      activeProcesses := activeProcesses + {p};
    }

    /** `copy_files`: refuses while another operation runs; otherwise
        claims the service for the copy worker. */
    method CopyFiles() returns (accepted: bool)
      modifies this
      ensures accepted == !old(running)
      ensures running
      ensures currentProcess == old(currentProcess) && activeProcesses == old(activeProcesses)
    {
      if running {
        return false;
      }
      running := true;
      return true;
    }

    /** `compare_directories`: the same admission for the comparison worker. */
    method CompareDirectories() returns (accepted: bool)
      modifies this
      ensures accepted == !old(running)
      ensures running
      ensures currentProcess == old(currentProcess) && activeProcesses == old(activeProcesses)
    {
      if running {
        return false;
      }
      running := true;
      return true;
    }

    /** `stop_operation`: clears `running` and asks the current process, if
        any, to terminate. */
    method StopOperation()
      modifies this, currentProcess
      ensures !running
      ensures currentProcess == old(currentProcess) && activeProcesses == old(activeProcesses)
      ensures currentProcess != null ==>
        && currentProcess.waited == old(currentProcess.waited)
        && currentProcess.terminateRequested == (old(currentProcess.terminateRequested) || !currentProcess.waited)
    {
      running := false;
      if currentProcess != null {
        currentProcess.Terminate();
      }
    }

    /** Records item `i` in the transfer result: its name joins the
        successes when its copy exited with 0; otherwise it joins the
        failures with a single line of detail. */
    static method RecordItem(files: seq<FileItem>, outcomes: seq<Invocation>, i: nat, result: TransferResult)
      returns (r: TransferResult)
      requires |files| == |outcomes| && i < |files|
      requires result == Aggregate(files[..i], outcomes[..i])
      ensures r == Aggregate(files[..i + 1], outcomes[..i + 1])
    {
      var name := files[i].name;
      var outcome := outcomes[i];
      r := result;
      if outcome.Finished? && outcome.returnCode == 0 {
        r := r.(successFiles := r.successFiles + [name]);
      } else {
        var detail := if outcome.Finished? then Diagnostic(outcome.output)
                      else if outcome.TimedOut? then TimeoutMessage(COPY_TIMEOUT)
                      else outcome.message;
        r := r.(failedFiles := r.failedFiles + [name], errorDetails := r.errorDetails[name := [detail]]);
      }
      AggregateStep(files, outcomes, i);
    }

    /** One item of the copy worker: start its copy (unless starting it
        raises), make it the current process and wait for it; a copy that
        finished is no longer tracked, one that overran stays tracked. */
    method CopyItem(pl: Platform, item: FileItem, outcome: Invocation, sourceRemote: string, destRemote: string,
                    destPath: string, isTest: bool, ignoreExisting: bool, ignoreErrors: bool)
      modifies this
      ensures running == old(running)
      ensures outcome.Raised? ==>
        currentProcess == old(currentProcess) && activeProcesses == old(activeProcesses)
      ensures !outcome.Raised? ==>
        && currentProcess != null && fresh(currentProcess)
        && CommandSpec(currentProcess.args, rclonePath, "copy", sourceRemote + item.path,
                       destRemote + Normalize(pl, pl.join(destPath, item.name)),
                       item.isDir, isTest, ignoreExisting, ignoreErrors)
      ensures outcome.Finished? ==> activeProcesses == old(activeProcesses) && currentProcess.waited
      ensures outcome.TimedOut? ==>
        activeProcesses == old(activeProcesses) + {currentProcess} && !currentProcess.waited
    {
      if !outcome.Raised? {
        var sourcePath := sourceRemote + item.path;
        var destFull := destRemote + Normalize(pl, pl.join(destPath, item.name));
        var p := CreateProcess("copy", sourcePath, destFull, item.isDir, isTest, ignoreExisting, ignoreErrors);
        currentProcess := p;
        if outcome.Finished? {
          p.Exit();
          activeProcesses := activeProcesses - {p};
        }
      }
    }

    /** The process side of one iteration of the copy worker: the stop
        request, if it arrives now, then the `running` check, then the copy
        of `item` when the check passes. The processes tracked beyond
        `base` are those of this run that overran their time; they stay
        tracked and are not waited for. */
    method CopyNext(pl: Platform, item: FileItem, outcome: Invocation, sourceRemote: string, destRemote: string,
                    destPath: string, isTest: bool, ignoreExisting: bool, ignoreErrors: bool,
                    stopNow: bool, ghost base: set<Process>)
      returns (proceed: bool)
      requires base <= activeProcesses
      requires forall p :: p in activeProcesses - base ==> !p.waited
      modifies this, currentProcess
      ensures proceed == (old(running) && !stopNow) && running == proceed
      ensures currentProcess == old(currentProcess) || fresh(currentProcess)
      ensures old(activeProcesses) <= activeProcesses
      ensures forall p :: p in activeProcesses - base ==> !p.waited && (p in old(activeProcesses) || fresh(p))
      ensures |activeProcesses - base|
           == |old(activeProcesses) - base| + (if proceed && outcome.TimedOut? then 1 else 0)
    {
      if stopNow {
        StopOperation();
      }
      if !running {
        return false;
      }
      CopyItem(pl, item, outcome, sourceRemote, destRemote, destPath, isTest, ignoreExisting, ignoreErrors);
      if outcome.TimedOut? {
        assert activeProcesses - base == old(activeProcesses) - base + {currentProcess};
      }
      proceed := true;
    }

    /** `_copy_worker`: copies the selected items one by one until done or
        stopped, and resets the service at the end. The result is the
        aggregate of the attempted items; every process that overran its
        time stays tracked and is not waited for (it may have ended on its
        own; only `Cleanup` polls it). */
    method CopyWorker(pl: Platform, files: seq<FileItem>, sourceRemote: string, destRemote: string,
                      destPath: string, isTest: bool, ignoreExisting: bool, ignoreErrors: bool,
                      outcomes: seq<Invocation>, cancelAt: nat)
      returns (result: TransferResult)
      requires |outcomes| == |files|
      modifies this, currentProcess
      ensures result == Aggregate(files[..Attempted(old(running), cancelAt, |files|)],
                                  outcomes[..Attempted(old(running), cancelAt, |files|)])
      ensures !running && currentProcess == null
      ensures old(activeProcesses) <= activeProcesses
      ensures forall p :: p in activeProcesses - old(activeProcesses) ==> !p.waited
      ensures |activeProcesses - old(activeProcesses)|
           == TimeoutCount(outcomes[..Attempted(old(running), cancelAt, |files|)])
    {
      result := TransferResult([], [], map[]);
      var i := 0;
      while i < |files|
        invariant i <= |files|
        invariant running == old(running)
        invariant running ==> i <= cancelAt
        invariant !running ==> i == 0
        invariant result == Aggregate(files[..i], outcomes[..i])
        invariant currentProcess == old(currentProcess) || fresh(currentProcess)
        invariant old(activeProcesses) <= activeProcesses
        invariant forall p :: p in activeProcesses - old(activeProcesses) ==> !p.waited
        invariant |activeProcesses - old(activeProcesses)| == TimeoutCount(outcomes[..i])
      {
        var item := files[i];
        var outcome := outcomes[i];
        var proceed := CopyNext(pl, item, outcome, sourceRemote, destRemote, destPath,
                                isTest, ignoreExisting, ignoreErrors, i == cancelAt, old(activeProcesses));
        if !proceed {
          break;
        }
        result := RecordItem(files, outcomes, i, result);
        assert TimeoutCount(outcomes[..i + 1]) == TimeoutCount(outcomes[..i]) + (if outcome.TimedOut? then 1 else 0) by {
          AggregateStep(files, outcomes, i);
        }
        i := i + 1;
      }
      running := false;
      currentProcess := null;
    }

    /** `_compare_worker`: lists both trees recursively, classifies them,
        and releases the service whatever happened. */
    method CompareWorker(pl: Platform, leftRemote: string, leftPath: string,
                         rightRemote: string, rightPath: string, criteria: seq<string>,
                         run: seq<string> -> Invocation)
      returns (outcome: Option<ComparisonResult>)
      modifies this
      ensures outcome == CompareRun(pl, rclonePath, leftRemote, leftPath, rightRemote, rightPath, criteria, run)
      ensures !running
      ensures currentProcess == old(currentProcess) && activeProcesses == old(activeProcesses)
    {
      outcome := None;
      var left := ListFiles(pl, leftRemote, leftPath, true, run);
      if left.Success? {
        var right := ListFiles(pl, rightRemote, rightPath, true, run);
        if right.Success? {
          var result := CompareListings(pl, criteria, DropParentEntries(left.value), DropParentEntries(right.value));
          outcome := Some(result);
        }
      }
      running := false;
    }

    /** `cleanup`: stops the operation, polls every tracked process, asks
        each one `poll()` finds still running to terminate, and forgets them
        all. `ended` holds the processes the operating system reports as
        terminated at that moment. A tracked process that is not the current
        one is signalled exactly when the poll finds it running; the current
        one has already been signalled by the stop unless it was waited for. */
    method Cleanup(ended: set<Process>)
      modifies this, currentProcess, activeProcesses
      ensures !running && activeProcesses == {}
      ensures currentProcess == old(currentProcess)
      ensures forall p :: p in old(activeProcesses) ==> p.waited == (old(p.waited) || p in ended)
      ensures forall p :: p in old(activeProcesses) ==>
        p.terminateRequested
          == (old(p.terminateRequested) || !p.waited || (p == currentProcess && !old(p.waited)))
      ensures currentProcess != null && currentProcess !in old(activeProcesses) ==>
        && currentProcess.waited == old(currentProcess.waited)
        && currentProcess.terminateRequested == (old(currentProcess.terminateRequested) || !currentProcess.waited)
    {
      StopOperation();
      label stopped:
      var pending := activeProcesses;
      while pending != {}
        invariant pending <= activeProcesses == old(activeProcesses)
        invariant !running && currentProcess == old(currentProcess)
        invariant forall p :: p in activeProcesses ==>
          old@stopped(p.terminateRequested)
            == (old(p.terminateRequested) || (p == currentProcess && !old(p.waited)))
        invariant forall p :: p in pending ==>
          p.waited == old(p.waited) && p.terminateRequested == old@stopped(p.terminateRequested)
        invariant forall p :: p in activeProcesses - pending ==>
          && p.waited == (old(p.waited) || p in ended)
          && p.terminateRequested == (old@stopped(p.terminateRequested) || !p.waited)
        invariant currentProcess != null && currentProcess !in activeProcesses ==>
          && currentProcess.waited == old(currentProcess.waited)
          && currentProcess.terminateRequested == old@stopped(currentProcess.terminateRequested)
        decreases pending
      {
        var p :| p in pending;
        var stillRunning := p.Poll(p in ended);
        if stillRunning {
          p.Terminate();
        }
        pending := pending - {p};
      }
      activeProcesses := {};
    }
  }
}
