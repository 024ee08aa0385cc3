/**
 * How the copy worker (`_copy_worker`, myrclone7calisiyor.py:241-286)
 * turns the outcome of each attempted item into a `TransferResult`. The
 * outcome of each copy invocation is an input; the worker itself, with
 * its process bookkeeping and cancellation, is `Service.RCloneService.CopyWorker`.
 */
module Transfer {

  import opened Strings
  import opened Model

  /** Longest diagnostic taken from captured output. */
  const MAX_DIAGNOSTIC: nat := 200
  /** Diagnostic of a failure that printed nothing. */
  const UNKNOWN_ERROR: string := "Bilinmeyen hata"

  /** The diagnostic of a failed copy. Standard error is merged into the
      captured output, so `stderr` is always `None` and the diagnostic is
      the start of the output, or "Bilinmeyen hata" when it is empty. */
  function Diagnostic(output: string): (d: string)
    ensures output == [] ==> d == UNKNOWN_ERROR
    ensures output != [] ==> |d| <= MAX_DIAGNOSTIC && d <= output && (|d| == MAX_DIAGNOSTIC || d == output)
  {
    if output == [] then UNKNOWN_ERROR
    else output[..if |output| < MAX_DIAGNOSTIC then |output| else MAX_DIAGNOSTIC]
  }

  /** An item succeeds exactly when its copy finished with exit code 0. */
  predicate Succeeded(o: Invocation) {
    o.Finished? && o.returnCode == 0
  }

  /** The single `error_details` line of a failed item: the diagnostic of a
      non-zero exit, "Timeout (10 dakika)" for a copy that overran its ten
      minutes, or the exception's message. */
  function FailureDetail(o: Invocation): (d: string)
    requires !Succeeded(o)
    ensures o.Finished? ==> d == Diagnostic(o.output)
    ensures o.TimedOut? ==> d == "Timeout (10 dakika)"
    ensures o.Raised? ==> d == o.message
  {
    assert TimeoutMessage(COPY_TIMEOUT) == "Timeout (10 dakika)";
    match o
    case Finished(_, output) => Diagnostic(output)
    case TimedOut => TimeoutMessage(COPY_TIMEOUT)
    case Raised(message) => message
  }

  /** Records the outcome of one item under its name. */
  function Record(r: TransferResult, name: string, o: Invocation): TransferResult {
    if Succeeded(o) then r.(successFiles := r.successFiles + [name])
    else r.(failedFiles := r.failedFiles + [name], errorDetails := r.errorDetails[name := [FailureDetail(o)]])
  }

  /** The result after the items `files`, whose outcomes are `outcomes`,
      have been attempted in order. */
  function Aggregate(files: seq<FileItem>, outcomes: seq<Invocation>): TransferResult
    requires |files| == |outcomes|
  {
    if files == [] then TransferResult([], [], map[])
    else Record(Aggregate(files[..|files| - 1], outcomes[..|outcomes| - 1]),
                files[|files| - 1].name, outcomes[|outcomes| - 1])
  }

  /** How many of the outcomes are timeouts. */
  function TimeoutCount(outcomes: seq<Invocation>): nat {
    if outcomes == [] then 0
    else TimeoutCount(outcomes[..|outcomes| - 1]) + (if outcomes[|outcomes| - 1].TimedOut? then 1 else 0)
  }

  function NamesOf(files: seq<FileItem>): (names: seq<string>)
    ensures |names| == |files|
    ensures forall i :: 0 <= i < |files| ==> names[i] == files[i].name
  {
    if files == [] then [] else NamesOf(files[..|files| - 1]) + [files[|files| - 1].name]
  }

  predicate DistinctNames(files: seq<FileItem>) {
    forall i, j :: 0 <= i < j < |files| ==> files[i].name != files[j].name
  }

  /** One more attempted item: its outcome is recorded on top of the
      aggregate of the items before it. */
  lemma AggregateStep(files: seq<FileItem>, outcomes: seq<Invocation>, i: nat)
    requires |files| == |outcomes| && i < |files|
    ensures Aggregate(files[..i + 1], outcomes[..i + 1])
         == Record(Aggregate(files[..i], outcomes[..i]), files[i].name, outcomes[i])
    ensures TimeoutCount(outcomes[..i + 1]) == TimeoutCount(outcomes[..i]) + (if outcomes[i].TimedOut? then 1 else 0)
  {
    assert files[..i + 1][..i] == files[..i] && outcomes[..i + 1][..i] == outcomes[..i];
  }

  // ---------------------------------------------------------------- properties

  /** Recording one item adds its name once, to the successes or to the
      failures. */
  lemma RecordAddsName(r: TransferResult, name: string, o: Invocation)
    ensures var r' := Record(r, name, o);
      && multiset(r'.successFiles) + multiset(r'.failedFiles)
         == multiset(r.successFiles) + multiset(r.failedFiles) + multiset{name}
      && |r'.successFiles| + |r'.failedFiles| == |r.successFiles| + |r.failedFiles| + 1
  {
  }

  /** Every attempted item is recorded once, as a success or as a failure. */
  lemma {:induction false} AggregatePartition(files: seq<FileItem>, outcomes: seq<Invocation>)
    requires |files| == |outcomes|
    ensures multiset(Aggregate(files, outcomes).successFiles) + multiset(Aggregate(files, outcomes).failedFiles)
         == multiset(NamesOf(files))
    ensures |Aggregate(files, outcomes).successFiles| + |Aggregate(files, outcomes).failedFiles| == |files|
  {
    if files != [] {
      var init := files[..|files| - 1];
      var f := files[|files| - 1];
      AggregatePartition(init, outcomes[..|outcomes| - 1]);
      RecordAddsName(Aggregate(init, outcomes[..|outcomes| - 1]), f.name, outcomes[|outcomes| - 1]);
      assert NamesOf(files) == NamesOf(init) + [f.name];
    }
  }

  /** Exactly the failed names have error details, each a single line. */
  lemma {:induction false} AggregateDetails(files: seq<FileItem>, outcomes: seq<Invocation>)
    requires |files| == |outcomes|
    ensures forall n :: n in Aggregate(files, outcomes).errorDetails <==> n in Aggregate(files, outcomes).failedFiles
    ensures forall n :: n in Aggregate(files, outcomes).errorDetails ==> |Aggregate(files, outcomes).errorDetails[n]| == 1
  {
    if files != [] {
      var prev := Aggregate(files[..|files| - 1], outcomes[..|outcomes| - 1]);
      AggregateDetails(files[..|files| - 1], outcomes[..|outcomes| - 1]);
      var name := files[|files| - 1].name;
      var o := outcomes[|outcomes| - 1];
      var r := Aggregate(files, outcomes);
      assert r == Record(prev, name, o);
      if Succeeded(o) {
        assert r.errorDetails == prev.errorDetails && r.failedFiles == prev.failedFiles;
      } else {
        assert r.errorDetails == prev.errorDetails[name := [FailureDetail(o)]];
        assert r.failedFiles == prev.failedFiles + [name];
        assert forall n :: n in r.failedFiles <==> n in prev.failedFiles || n == name;
      }
    }
  }

  /** How the result records the item `name` whose copy had outcome `o`:
      a success exactly when the copy exited with 0, a failure otherwise,
      and a failure's detail is the line for its own outcome. */
  predicate ItemRecorded(r: TransferResult, name: string, o: Invocation) {
    && (name in r.successFiles <==> Succeeded(o))
    && (name in r.failedFiles <==> !Succeeded(o))
    && (!Succeeded(o) ==> name in r.errorDetails && r.errorDetails[name] == [FailureDetail(o)])
  }

  /** Recording a name not seen before records it by its own outcome. */
  lemma RecordOwn(r: TransferResult, name: string, o: Invocation)
    requires name !in r.successFiles && name !in r.failedFiles
    ensures ItemRecorded(Record(r, name, o), name, o)
  {
  }

  /** Recording one name leaves what is recorded for every other name. */
  lemma RecordKeeps(r: TransferResult, name: string, o: Invocation, other: string, p: Invocation)
    requires other != name && ItemRecorded(r, other, p)
    ensures ItemRecorded(Record(r, name, o), other, p)
  {
  }

  /** With distinct names, every attempted item is recorded by its own
      outcome. */
  lemma {:induction false} AggregateByItem(files: seq<FileItem>, outcomes: seq<Invocation>)
    requires |files| == |outcomes| && DistinctNames(files)
    ensures forall i :: 0 <= i < |files| ==> ItemRecorded(Aggregate(files, outcomes), files[i].name, outcomes[i])
  {
    if files != [] {
      var n := |files| - 1;
      var init := files[..n];
      var inits := outcomes[..n];
      var f := files[n];
      assert DistinctNames(init);
      AggregateByItem(init, inits);
      AggregatePartition(init, inits);
      var prev := Aggregate(init, inits);
      assert Aggregate(files, outcomes) == Record(prev, f.name, outcomes[n]);
      assert f.name !in prev.successFiles && f.name !in prev.failedFiles by {
        assert f.name !in NamesOf(init);
        assert f.name !in multiset(NamesOf(init));
      }
      forall i | 0 <= i < |files|
        ensures ItemRecorded(Aggregate(files, outcomes), files[i].name, outcomes[i])
      {
        if i == n {
          RecordOwn(prev, f.name, outcomes[n]);
        } else {
          assert files[i] == init[i] && outcomes[i] == inits[i];
          RecordKeeps(prev, f.name, outcomes[n], files[i].name, outcomes[i]);
        }
      }
    }
  }

  /** The attempted items are a prefix of the selection; the aggregate of a
      longer prefix extends the aggregate of a shorter one. */
  lemma {:induction false} AggregateGrows(files: seq<FileItem>, outcomes: seq<Invocation>, n: nat)
    requires |files| == |outcomes| && n <= |files|
    ensures var short := Aggregate(files[..n], outcomes[..n]);
      var long := Aggregate(files, outcomes);
      short.successFiles <= long.successFiles && short.failedFiles <= long.failedFiles
    decreases |files|
  {
    if n < |files| {
      var init := files[..|files| - 1];
      var inits := outcomes[..|outcomes| - 1];
      assert init[..n] == files[..n] && inits[..n] == outcomes[..n];
      AggregateGrows(init, inits, n);
    } else {
      assert files[..n] == files && outcomes[..n] == outcomes;
    }
  }
}
