# Dual-pane rclone file manager: the service core in Dafny

This project models the service layer of the dual-pane rclone file manager
(`myrclone7calisiyor.py`). The layer is the `RCloneService` object that
drives the external `rclone` tool, together with the `normalize_path` and
`format_size` utilities and the three records it passes around
(`FileItem`, `TransferResult`, `ComparisonResult`). The project proves
properties of the model.

Modules, following the program's structure:

- `Wrappers`: `Option` and `Result`.
- `Strings`: the Python string built-ins the service relies on, over
  `seq<char>`: `strip`, `split()`, `split(sep)`, `' '.join`, `int(...)` and
  `str(int)`.
- `Paths`: `normalize_path`. The host's `pathlib` operations are a
  `Platform` parameter.
- `Model`: the constants and records, and `Invocation`, the outcome of one
  external tool invocation: finished with an exit code and output, timed
  out, or raised.
- `Format`: `format_size`.
- `Commands`: the command line `_create_process` builds.
- `Listing`: `list_files`, with its two listing invocations (`lsd`, `lsl`)
  and the parsing of their output lines.
- `Compare`: the classification loop of `_compare_worker`. The Python dict
  `right_dict` is an `Index`, a map plus the keys in insertion order.
  `Classify` is the reference definition of the loop's result.
- `Transfer`: how `_copy_worker` turns per-item outcomes into a
  `TransferResult`. `Aggregate` is the reference definition.
- `Service`: the `RCloneService` class, with its fields `running`,
  `currentProcess` and `activeProcesses`, and a `Process` class for a
  started external process.

Things the operating system decides are inputs:

- A listing invocation is answered by `run`, a function of its argument
  list.
- The copy of each selected item comes to a given `Invocation`.
- The foreground's stop request arrives before the `running` check of
  iteration `cancelAt` of the copy worker.

Three behaviours of the code that the model keeps:

- A listing invocation that exits with a non-zero code is not an error.
  It contributes no entries, and the listing still succeeds (lines
  176 and 195).
- A copy that overran its ten minutes is never removed from
  `active_processes`. The removal on line 260 is skipped when `communicate`
  raises. The model keeps such processes tracked and not waited for
  until `cleanup` polls them.
- `_compare_worker` does not check `running` between listing and
  classifying. It classifies whatever both listings returned.

## Model

| member | source | states |
|---|---|---|
| Paths.Normalize | myrclone7calisiyor.py:102-104 | a normalized path contains no backslash, whatever the platform's `pathlib` made of it |
| Paths.ReplaceBackslashes | myrclone7calisiyor.py:104 | same length; each backslash becomes `/` and every other character stays in place |
| Paths.NormalizeStable | myrclone7calisiyor.py:102-104 | replacing backslashes in a normalized path changes nothing |
| Strings.JoinOn | myrclone7calisiyor.py:184 | `sep.join(parts)`: the parts with one separator between neighbours |
| Strings.SplitOn | myrclone7calisiyor.py:179 | `s.split(sep)` for one separator character: the pieces between separators, at least one |
| Strings.Fields | myrclone7calisiyor.py:182 | `s.split()`: the maximal runs of non-whitespace, in order, each a non-empty word |
| Strings.ParseInt | myrclone7calisiyor.py:114 | `int(s)`: the whitespace `int` skips around the number ignored, an optional sign, ASCII digit groups with single underscores between digits; no value where `int` raises (the properties are the Parse lemmas below) |
| Strings.IntTrimStart | myrclone7calisiyor.py:114 | the leading whitespace `int` skips: a suffix of the input, everything dropped is `str.isspace()` whitespace other than U+001C to U+001F, and the rest does not start with such whitespace |
| Strings.IntTrimEnd | myrclone7calisiyor.py:114 | the same for the trailing whitespace `int` skips: a prefix of the input that does not end with it |
| Strings.IntToString | myrclone7calisiyor.py:116-118 | `str(i)`: a minus sign for a negative value, then decimal digits without a leading zero |
| Strings.TrimStart | myrclone7calisiyor.py:177-180 | the left half of `strip`: a suffix of the input, everything dropped is whitespace, and it does not start with whitespace |
| Strings.TrimEnd | myrclone7calisiyor.py:177-180 | the right half of `strip`: a prefix of the input, everything dropped is whitespace, and it does not end with whitespace |
| Strings.Strip | myrclone7calisiyor.py:177-180 | the stripped string starts and ends with non-whitespace, and it is empty exactly when the input is all whitespace |
| Strings.SplitJoin | myrclone7calisiyor.py:179 | no piece of `s.split(sep)` holds `sep`, and `sep.join(s.split(sep)) == s` |
| Strings.FieldsOfJoin | myrclone7calisiyor.py:182-184 | `' '.join(ws).split() == ws` for whitespace-free non-empty words |
| Strings.StripOfJoin | myrclone7calisiyor.py:180-184 | stripping a single-space join of words changes nothing |
| Strings.IntRoundTrip | myrclone7calisiyor.py:114-116 | `int(str(i)) == i` for every integer |
| Strings.ParseDigits | myrclone7calisiyor.py:114 | `int` of a digit string is the value of its digits |
| Strings.ParseMinus | myrclone7calisiyor.py:114 | `int` of a minus sign followed by digits is minus their value |
| Strings.ParseSkipsSpace | myrclone7calisiyor.py:114 | padding a string on either side with whitespace `int` skips does not change what `int` makes of it |
| Strings.ParseRejectsSeparator | myrclone7calisiyor.py:114 | a string holding any of U+001C to U+001F, leading and trailing ones included, is rejected by `int` |
| Format.ScaleIndex | myrclone7calisiyor.py:115-118 | the chosen unit is the first round whose value is below 1024, or TB after four rounds |
| Format.FormatSize | myrclone7calisiyor.py:112-119 | input `int` rejects (as `Strings.ParseRejectsSeparator` shows for the separators U+001C to U+001F) comes back unchanged; otherwise the value after the chosen number of floor divisions by 1024, a space, and the unit of that round |
| Format.FormatValue | myrclone7calisiyor.py:115-118 | the loop returns the value scaled to the first round below 1024 (TB after four rounds) with that round's unit |
| Format.ScaleIndexUnique | myrclone7calisiyor.py:115-117 | the loop's stopping round is determined: the first round below 1024 |
| Format.ShrinkAtLeast | myrclone7calisiyor.py:117 | for a non-negative size, j floor divisions by 1024 leave at least m exactly when the size is at least m·1024^j |
| Format.UnitMatchesMagnitude | myrclone7calisiyor.py:112-119 | the unit chosen for a non-negative size is the largest power of 1024 not above it (TB from 1 TiB up) |
| Format.NegativeInBytes | myrclone7calisiyor.py:116 | a negative size is shown in bytes |
| Model.TimeoutMessage | myrclone7calisiyor.py:207 | `f"Timeout ({seconds//60} dakika)"`, the message of a listing (line 207) or copy (line 273) timeout |
| Commands.CommandSpec | myrclone7calisiyor.py:213-225 | the argument list of a command: the executable; the subcommand and paths for its type; `--create-empty-src-dirs` for a directory copy only; the four progress words; then exactly one each of `--ignore-existing`, `--ignore-errors` and `--dry-run` whose flag is set, and only for copy or sync; no other words |
| Commands.BuildCommand | myrclone7calisiyor.py:212-226 | the command built by appending meets `CommandSpec`: every word is fixed except the order of the requested options |
| Commands.AppendOptions | myrclone7calisiyor.py:222-225 | appends one word per set flag of a copy or sync and nothing else, each of the three options exactly when its flag is set |
| Commands.CommandShape | myrclone7calisiyor.py:213-225 | a command assembled from its four parts (executable with positionals, directory-copy option, progress words, requested options) meets `CommandSpec` |
| Listing.ParentPath | myrclone7calisiyor.py:164-166 | the target of the ".." entry: the normalized parent, or "/" for the "." placeholder; it has no backslash and is never "." |
| Listing.ListCommand | myrclone7calisiyor.py:170-191 | the argument list of a listing invocation: the executable, `lsd` or `lsl`, the remote-prefixed path, then `-R` or `--max-depth 1` |
| Listing.LineEntries | myrclone7calisiyor.py:179-205 | one output line: none when blank or with fewer than five fields, otherwise one entry named by the fields from the fifth on, modified at fields two and three, sized by field one for files, with the path as the name when recursive and the normalized joined path otherwise |
| Listing.ListingOf | myrclone7calisiyor.py:162-210 | the result of `list_files`: the `lsd` failure, else the `lsl` failure, else the ".." entry when due, then the `lsd` entries, then the `lsl` entries |
| Listing.ParseLines | myrclone7calisiyor.py:179-186 | the loop over output lines yields exactly the entries the line-by-line reading gives, in line order |
| Listing.ParseOutput | myrclone7calisiyor.py:176-186 | the method's entries are the reference reading of the output: no entries unless the exit code is 0 and the stripped output is not empty, then one per wide line |
| Listing.ListingEntriesFacts | myrclone7calisiyor.py:198-205 | one entry per line with at least five fields and none for other lines; every entry has the listing's kind and the listed remote, a directory has no size, a recursive entry's path is its name and a non-recursive path has no backslash |
| Listing.LineRoundTrip | myrclone7calisiyor.py:180-186 | a line whose fields are separated by single spaces gives back its name (words re-joined by single spaces), size and modification time |
| Listing.KindsInOrder | myrclone7calisiyor.py:186-205 | directory entries followed by file entries: no directory comes after a file |
| Listing.ListingLayout | myrclone7calisiyor.py:162-210 | a successful listing has the ".." entry first when due (non-recursive, not the root), and as many entries besides as the two outputs have lines with at least five fields; no directory follows a file, and every entry carries the listed remote |
| Listing.ListingFailure | myrclone7calisiyor.py:206-209 | a listing fails exactly when an invocation it ran did not finish; a timeout reports "Timeout (5 dakika)", any other exception "Listeleme hatası: " and its message |
| Compare.Differs | myrclone7calisiyor.py:315-319 | a pair is different exactly when some chosen criterion is violated; with equal names and times it differs exactly when sizes are chosen, both are files and the sizes differ |
| Compare.KeyOf | myrclone7calisiyor.py:308-311 | the key an entry is matched under: its path with a leading "/" added when missing, normalized |
| Compare.IsDifferent | myrclone7calisiyor.py:315-319 | the three criterion checks compute `Differs` |
| Compare.Insert | myrclone7calisiyor.py:308 | `d[k] = v` keeps the index consistent, adds `k` to its keys, stores `v` under `k` and leaves every other key's value alone; a new key goes to the end of the order, an existing one keeps its place |
| Compare.BuildIndex | myrclone7calisiyor.py:308 | the index of the right listing is consistent and its keys are exactly the right entries' keys; for a repeated key, the value and the position are stated by `IndexKeepsLast`, `IndexHoldsLast` and `IndexFirstOrder` |
| Compare.KeysAt | myrclone7calisiyor.py:308-311 | the key sequence of a listing holds each entry's key at its position |
| Compare.FirstAt | myrclone7calisiyor.py:308 | the position of a key's first occurrence: it holds the key and no earlier position does |
| Compare.IndexKeepsLast | myrclone7calisiyor.py:308 | for every key, the right entry at its last occurrence is the value indexed under it |
| Compare.IndexHoldsLast | myrclone7calisiyor.py:308 | every indexed value is the right entry at the last occurrence of its key |
| Compare.IndexFirstOrder | myrclone7calisiyor.py:308 | the index order holds exactly the right keys, ranked by the position of each key's first occurrence |
| Compare.IndexedUnderOwnKey | myrclone7calisiyor.py:308 | every indexed value is a right entry filed under its own key |
| Compare.Without | myrclone7calisiyor.py:324 | what is left of the key order after deletions holds exactly the keys not deleted, each once |
| Compare.DeleteStep | myrclone7calisiyor.py:313-326 | one loop step leaves the index with the keys seen so far removed, whether or not the key was present |
| Compare.ClassifyStep | myrclone7calisiyor.py:310-326 | one more left entry extends exactly one bucket (left-only, different or same) and the set of keys taken |
| Compare.RemainingValues | myrclone7calisiyor.py:328-329 | `list(d.values())` lists the remaining values in key order |
| Compare.CompareListings | myrclone7calisiyor.py:307-329 | the loop's result equals the reference classification `Classify` |
| Compare.Classify | myrclone7calisiyor.py:307-329 | the comparison as a whole: left entries without a key in the right index are left-only, matched ones are different or same by `Differs` against the indexed right entry, and the index values whose keys no left entry has are right-only, in index order |
| Compare.LeftPartition | myrclone7calisiyor.py:310-326 | every left entry lands in exactly one bucket |
| Compare.RightPartition | myrclone7calisiyor.py:313-329 | the right-only entries and the right sides of all pairs are together the indexed values, each once |
| Compare.ValuesWithoutOne | myrclone7calisiyor.py:324 | deleting one present key takes exactly its value out of the remaining values |
| Compare.IndexOfUniqueKeys | myrclone7calisiyor.py:308 | when no two right entries share a key, the index holds every right entry, in listing order |
| Compare.ComparePartitions | myrclone7calisiyor.py:307-329 | the result partitions the left listing (as multisets, and by count); when right keys are unique it partitions the right listing too |
| Compare.PairsKeyed | myrclone7calisiyor.py:313-322 | every pair joins a left entry with the right entry indexed under the same key, and its bucket agrees with `Differs` |
| Compare.LeftOnlyExact | myrclone7calisiyor.py:313-326 | for any left listing, repeated keys included: every position whose key is not indexed, or was already taken by an earlier left entry with the same key, is left-only, and every left-only entry comes from such a position |
| Compare.LeftOnlyUniqueKeys | myrclone7calisiyor.py:313-326 | with unique left keys, a left entry is left-only exactly when the right side has no entry under its key |
| Compare.BucketsByKey | myrclone7calisiyor.py:310-329 | pairs join entries from both sides with equal keys, `different` exactly when a chosen criterion is violated; a right-only entry's key is on no left entry; with unique left keys, left-only exactly when no right entry has the key |
| Compare.BucketsByPosition | myrclone7calisiyor.py:308-329 | with repeated keys on either side: a left entry is left-only exactly at a position whose key the right side lacks or an earlier left entry has taken; every right entry in a bucket is the last right entry with its key, so earlier duplicates are in no bucket |
| Transfer.Diagnostic | myrclone7calisiyor.py:267 | an empty output gives "Bilinmeyen hata"; otherwise the diagnostic is a prefix of the output, the whole of it or its first 200 characters |
| Transfer.FailureDetail | myrclone7calisiyor.py:265-278 | a non-zero exit gives the diagnostic, a timeout "Timeout (10 dakika)", an exception its message |
| Transfer.Record | myrclone7calisiyor.py:262-278 | one item: its name joins the successes for exit code 0, otherwise the failures with its single detail line |
| Transfer.Aggregate | myrclone7calisiyor.py:247-278 | the result after the attempted items, recorded in order |
| Transfer.AggregateStep | myrclone7calisiyor.py:247-278 | attempting one more item records its outcome on top of the items before it |
| Transfer.AggregatePartition | myrclone7calisiyor.py:262-278 | every attempted item's name is recorded once, as a success or as a failure |
| Transfer.AggregateDetails | myrclone7calisiyor.py:266-277 | exactly the failed names have error details, each a single line |
| Transfer.RecordOwn | myrclone7calisiyor.py:262-278 | recording a name not yet seen records it by its own outcome |
| Transfer.RecordKeeps | myrclone7calisiyor.py:262-278 | recording one name leaves what is recorded for every other name |
| Transfer.AggregateByItem | myrclone7calisiyor.py:262-278 | with distinct names, each item is a success exactly when its copy exited 0, otherwise a failure whose detail is its own outcome's line |
| Transfer.AggregateGrows | myrclone7calisiyor.py:247-248 | stopping later only extends the success and failure lists |
| Service.DropParentEntries | myrclone7calisiyor.py:302-303 | keeps exactly the entries not named "..", each as often as in the listing, and keeps a listing without such entries unchanged |
| Service.DropParentAppend | myrclone7calisiyor.py:302-303 | the filter keeps the listing's order: filtering a concatenation concatenates the filtered parts |
| Service.DropParentSingle | myrclone7calisiyor.py:302-303 | a single entry is kept exactly when it is not named ".." |
| Service.Attempted | myrclone7calisiyor.py:247-248 | no item is attempted when the service was not running, and all are attempted when no stop arrives |
| Service.CompareRun | myrclone7calisiyor.py:296-337 | what the comparison worker passes on: nothing when a listing fails, otherwise `Classify` of both recursive listings without entries named ".." |
| Service.CompareRunOutcome | myrclone7calisiyor.py:296-337 | the comparison yields a result exactly when all four listing invocations finish |
| Service.CompareRunFullListings | myrclone7calisiyor.py:296-337 | a recursive listing gets no synthetic ".." entry, so when the tool named no entry "..", the result classifies the two full listings |
| Service.Process.Terminate | myrclone7calisiyor.py:343 | a process not waited for is asked to terminate; one whose exit status is collected is left alone |
| Service.Process.Poll | myrclone7calisiyor.py:351 | `poll()` reports "still running" exactly when the process has neither been waited for nor ended, and an ended process is waited for afterwards |
| Service.Process.Exit | myrclone7calisiyor.py:258-259 | after `communicate` returns, the process is waited for |
| Service.RCloneService.constructor | myrclone7calisiyor.py:129-134 | a new service is idle, with no current process and nothing tracked |
| Service.RCloneService.ListFiles | myrclone7calisiyor.py:162-210 | the method returns the reference listing of its two invocations, whose command lines are `lsd`/`lsl` on the remote-prefixed path with `-R` or `--max-depth 1` |
| Service.RCloneService.CreateProcess | myrclone7calisiyor.py:212-231 | a new, running process whose arguments meet the command shape is started and added to the tracked set |
| Service.RCloneService.CopyFiles | myrclone7calisiyor.py:233-239 | refused exactly when an operation is running; afterwards the service is running |
| Service.RCloneService.CompareDirectories | myrclone7calisiyor.py:288-294 | refused exactly when an operation is running; afterwards the service is running |
| Service.RCloneService.StopOperation | myrclone7calisiyor.py:339-345 | clears `running` and asks the current process, if not waited for, to terminate |
| Service.RCloneService.RecordItem | myrclone7calisiyor.py:262-278 | recording item i advances the result to the aggregate of the first i+1 items |
| Service.RCloneService.CopyItem | myrclone7calisiyor.py:251-260 | unless starting raised, a fresh current process runs the `copy` command for the item's source path and normalized destination; a finished copy leaves the tracked set as it was, a timed-out one stays tracked and not waited for |
| Service.RCloneService.CopyNext | myrclone7calisiyor.py:247-260 | an item is attempted exactly when the service is still running after a stop request that may arrive; each timeout adds one process not waited for to the tracked set |
| Service.RCloneService.CopyWorker | myrclone7calisiyor.py:241-286 | the result is the aggregate of the attempted items (none if not running, those before the stop otherwise); the worker ends not running with no current process; each timed-out item leaves one more tracked process that is not waited for |
| Service.RCloneService.CompareWorker | myrclone7calisiyor.py:296-337 | the outcome is the classification of both recursive listings without ".." entries, or none when a listing fails; the service ends not running |
| Service.RCloneService.Cleanup | myrclone7calisiyor.py:347-355 | stops the operation, polls every tracked process, asks exactly those `poll()` finds still running to terminate (the current one was already asked by the stop), leaves ended ones alone, and forgets them all |

## Left out

- Threads: `copy_files` and `compare_directories` start a background worker. Here admission (`CopyFiles`, `CompareDirectories`) and the worker bodies (`CopyWorker`, `CompareWorker`) are separate methods run one call at a time. Interleaving with the foreground is reduced to the single `cancelAt` point of the stop request.
- Logging through `log_callback` and the completion callbacks. A worker's result is its return value, and `None` means the callback is not called.
- The worker-level `try`/`except` around logging and the callback. Only exceptions from the tool invocations are modelled.
- `check_rclone`, `load_remotes` and `get_rclone_path`: locating the tool and listing its remotes, which the operations do not depend on. The executable is the `rclonePath` constant.
- The Tk user interface, dialogs and the progress animation.
- `pathlib` itself: `str(Path(p))`, `Path(p) / name` and `Path(p).parent` are functions of a `Platform` parameter, because their results depend on the operating system.
- Text decoding of the tool's output (`utf-8`, errors ignored). Outputs are taken as already decoded strings.
- Service.RCloneService.Cleanup: `process.wait(timeout=2)` after a terminate request, and the exceptions swallowed there, are not modelled. The model records the terminate request only, so a process that ends within those two seconds is not recorded as waited for. What `poll()` answers is the input `ended`.
- Service.RCloneService.StopOperation: `stop_operation` does not poll. A current process that ended on its own without being waited for is still recorded as asked to terminate. Whether the signal is sent to an ended process depends on the Python version.
- Paths.Normalize: states only that the result has no backslash, because the rest of `pathlib`'s normalisation is a platform parameter.
- Strings.ParseInt: accepts ASCII digits only; Python's `int` also accepts other Unicode decimal digits. It also has no digit-count limit. Python 3.11 and later (and the 3.7 to 3.10 security releases) raise `ValueError` for a decimal string of more than 4300 digits. `format_size` returns such a string unchanged, while `Format.FormatSize` formats it. The limit depends on the interpreter version and its settings.
- Listing.LineEntries: reads a line as the code does, by its first three fields and the name from the fifth field on. The model makes no claim about the column layout the tool actually prints. `Listing.LineRoundTrip` covers only lines whose fields are separated by single spaces.
- Service.RCloneService.CopyItem: an exception other than a timeout is modelled as raised while starting the process, which leaves the current process and tracked set unchanged. An exception from `communicate` after a successful start, which would leave that process current and tracked, is not modelled separately.
- Service.RCloneService.CopyWorker: a process that overran its time may end on its own while the worker goes on. The model has no state for that. It states only that the processes this run leaves tracked are not waited for, which does not mean they are still running; `Cleanup` learns which have ended through its `ended` input. It also does not state that those processes were created by this run. `CopyItem` states freshness for each process.
- Compare.ComparePartitions: the right-hand partition holds only when no two right entries share a key, because the dictionary keeps the last right entry per key. Earlier duplicates appear in no bucket, as `Compare.BucketsByPosition` states.
