# Operation registry, template codec and marker extractor

A Dafny model of the core of a small Rust tool. The tool keeps a directory
of user-written Python "operations" (`opt-<id>.py`) and runs them one after
another over a text. The model covers three parts:

- **Marker extractor** (`get_content`, src/utils.rs): cuts out the text after
  the first occurrence of a start pattern. It stops at the first later
  occurrence of an end pattern, or at the end of the content when no end
  pattern is given. It fails in three ways: start not found, end not found,
  empty result.
- **Template codec** (src/python.rs):
  - the editable view of an operation: preamble, marker line, body;
  - extraction of the body from an edited view;
  - splicing a body into the runner script;
  - the whitespace tokenisation of the interpreter command.
- **Operation registry and run loop** (src/core.rs):
  - the directory of operation files, modelled as a mutable map from id to
    body inside a class;
  - `Operation` handles that write, rename and delete one file;
  - the `OperationManager`, which lists, inserts, adds, removes, renumbers
    and runs operations, threading a data map and a content index from one
    run to the next.

Modules:

- `Wrappers`: Option and Result.
- `Text`: Rust's `find`, `contains` and `replace` on strings.
- `Utils`: `get_content`.
- `Python`: the codec and tokenisation.
- `OptFiles`: file names, id parsing, the `get_ids` scan and sorting.
- `Registry`: specification functions for renames, insertion, resorting and
  removal.
- `Runs`: `process` and the chain of runs.
- `Core`: the classes, whose methods are proved against the `Registry` and
  `Runs` functions.

Strings are `seq<char>`. Rust indexes bytes, but every pattern involved is
searched for and sliced as a whole, so a character model gives the same
slices.

The outside world enters as parameters:

- **Rename refusal.** The file system's refusal of a rename is a function
  `refuses(src, dst)`, consulted only when an existing file moves to another
  id: a rename onto the file's own id always succeeds. `NeverRefuses` states
  that every rename succeeds.
- **Interpreter.** The Python process is a function from (runner script,
  request) to a reply or an error.
- **Parser.** serde's reading of the reply is a function from text to an
  output record or an error message.
- **Boilerplate.** The preamble and default template are cut out of the
  runner text by `LoadAssets`, as the compile-time macro does.

Behaviour of the code worth noting:

- **`("Hello, world!", "Hello", Some(","))`.** The end pattern sits right
  after the start match, so src/utils.rs:16-19 returns the empty-result
  error, not end-not-found and not an empty string. See `Utils.HelloWorldUpToComma`.
- **Interpreter arity.** src/core.rs:83 calls `run_operation_python` with two
  arguments, while src/python.rs:84-88 declares three (the third is the
  interpreter command). The `Interpreter` parameter stands for the whole
  call. The command's tokenisation is modelled separately
  (`Python.PythonInvocation`).
- **Private function.** `create_operation_runner_python` is private
  (src/python.rs:36) yet src/core.rs:45 calls it. It is modelled as written
  (`Python.RunnerScript`).

## Model

| member | source | states |
|---|---|---|
| Text.Find | src/utils.rs:10 | `str::find`: the result is an occurrence, no earlier index is one, and it is None exactly when the pattern occurs nowhere |
| Text.ReplaceAll | src/python.rs:38-41 | definition of `str::replace`: every non-overlapping occurrence, left to right, is replaced, and an empty pattern matches at every character boundary; `Text.ReplaceAllAbsent` and `Text.ReplaceAllInserts` state its properties |
| Text.ReplaceAllAbsent | src/python.rs:38-41 | `str::replace` returns text without the pattern unchanged |
| Text.ReplaceAllInserts | src/python.rs:38-41 | whenever the pattern occurs, `str::replace`'s result contains the replacement |
| Utils.GetContent | src/utils.rs:1-27 | a successful extraction is never empty |
| Utils.StartNotFoundIff | src/utils.rs:6-8 | the start-not-found error occurs if and only if `start` does not occur |
| Utils.EndNotFoundIff | src/utils.rs:12-15 | with an end pattern, end-not-found occurs if and only if `end` does not occur after the first start match |
| Utils.EndRightAfterStart | src/utils.rs:16-19 | an end pattern right after the first start match gives the empty-result error |
| Utils.GetContentWithEndOk | src/utils.rs:16-20 | a result with an end pattern lies between the first start match and an occurrence of `end`; no occurrence of `end` starts inside it, and it contains none |
| Utils.WithoutEnd | src/utils.rs:21-26 | without an end pattern, the result is an error (empty-result) if and only if the first start match ends the content; otherwise it is the whole suffix |
| Utils.Reconstruct | src/utils.rs:10-25 | on success, content == before ++ start ++ result ++ rest, where `before` holds no occurrence of `start` |
| Utils.ResultOccurs | src/utils.rs:20-25 | an extracted result occurs in the content |
| Utils.HelloWorldWithoutEnd | src/utils.rs:21-25 | `("Hello, world!", "Hello", None)` gives `", world!"` |
| Utils.HelloWorldUpToBang | src/utils.rs:12-20 | with end `"!"` it gives `", world"` |
| Utils.HelloWorldUpToComma | src/utils.rs:16-19 | with end `","` it gives the empty-result error |
| Utils.EndBeforeStartExample | src/utils.rs:12-15 | an end pattern that occurs only before the start match is reported as not found |
| Python.LoadAssets | src/python.rs:10-19 | the preamble and template cut out of the runner are non-empty, and the template occurs in the runner |
| Python.EditView | src/python.rs:24-30 | definition: preamble, newline, marker, newline, then the stored body or, without one, the default template; `Python.RoundTrip` proves that saving it gives the body back |
| Python.OperationBody | src/python.rs:32-34 | definition: `get_content` with the marker line as start and no end pattern; `Python.BodyAfterFirstMarkerLine` and `Python.OperationBodyErrors` state what it returns |
| Python.RunnerScript | src/python.rs:36-42 | definition: each template block of the runner replaced by the body between newlines; `Python.RunnerScriptWithoutTemplate`, `Python.RunnerScriptSplices` and `Python.BundledRunnerHoldsBody` state its properties |
| Python.BodyAfterFirstMarkerLine | src/python.rs:32-34 | extraction returns everything after the first marker line, later marker lines included, or empty-result when nothing follows |
| Python.PreambleHasNoMarkerLine | src/python.rs:24-30 | a preamble without the marker holds no marker line even with its newline appended |
| Python.RoundTrip | src/python.rs:24-34 | saving the edit view gives back the body shown (stored body or default template), provided the preamble has no marker; an empty body gives empty-result |
| Python.TemplateRoundTrip | src/core.rs:274-276 | with the bundled boilerplate, the default template view saves back to the template |
| Python.OperationBodyErrors | src/python.rs:32-34 | extraction fails with start-not-found if and only if the marker line is missing, and with empty-result if and only if nothing follows it |
| Python.RunnerScriptWithoutTemplate | src/python.rs:36-42 | a runner without the template block comes back unchanged |
| Python.RunnerScriptSplices | src/python.rs:36-42 | a runner holding the template block contains "\n" ++ body ++ "\n", and hence the body |
| Python.BundledRunnerHoldsBody | src/python.rs:36-42 | with the bundled runner, the script always contains the body |
| Python.RunnerTestExample | src/python.rs:165-169 | the runner made from template ++ "\nprint('Hello!')" contains `print('Hello!')` |
| Python.SplitWhitespace | src/python.rs:54 | definition of `split_whitespace` by recursion on the text; `Python.SplitWhitespaceSpec` and `Python.SplitWhitespaceMaximal` prove it gives exactly the maximal runs of non-whitespace, in order |
| Python.WordLength | src/python.rs:54 | the leading run of non-whitespace ends at whitespace or at the end of the text |
| Python.SplitWhitespaceSpec | src/python.rs:54 | tokens are non-empty, hold no whitespace, and together are exactly the input's non-whitespace characters, in order |
| Python.WordStartsFromSpec | src/python.rs:54 | the word starts from a position on are listed ascending, each a non-whitespace character at the start or after whitespace, and none is missed |
| Python.SplitWhitespaceMaximal | src/python.rs:54 | one token per word start, in order; each token is the text from its start up to the next whitespace or the end, so no token can be extended |
| Python.PythonInvocation | src/python.rs:54-63 | the first token is the program ("python3" without tokens), the other tokens precede the script path, and the caller's arguments come last |
| Python.ProgramIsAWord | src/python.rs:54-55 | the launched program is a non-empty word with no whitespace |
| OptFiles.Decimal | src/core.rs:38 | an id is written as non-empty decimal digits with no leading zero |
| OptFiles.DecimalValue | src/core.rs:38 | the written digits denote the id |
| OptFiles.ParseId | src/core.rs:128 | definition of `parse::<u32>` without the 32-bit range: an optional `+`, then one or more decimal digits; `OptFiles.ParseDecimal`, `OptFiles.ParseAcceptsSignAndZeros` and `OptFiles.ParseRejects` state what it accepts |
| OptFiles.ParseDecimal | src/core.rs:128 | a written id parses back to itself |
| OptFiles.ParseAcceptsSignAndZeros | src/core.rs:128 | `parse` also accepts a `+` sign and leading zeros |
| OptFiles.ParseRejects | src/core.rs:128 | empty strings, a lone sign, a minus sign and trailing letters do not parse |
| OptFiles.FileName | src/core.rs:38 | definition: `opt-`, the id in decimal, `.py`; `OptFiles.FileNameParses` and `OptFiles.FileNameInjective` state its properties |
| OptFiles.IsOptName | src/core.rs:127 | definition of the `starts_with("opt-") && ends_with(".py")` test; `OptFiles.FileNameParses` proves every written name passes it |
| OptFiles.FileNameParses | src/core.rs:127-128 | the name written for id i is recognised by the prefix/suffix test, and its middle parses to i |
| OptFiles.FileNameInjective | src/core.rs:38 | distinct ids get distinct file names |
| OptFiles.InsertSorted | src/core.rs:132 | inserting into a sorted list keeps it sorted and adds exactly one element |
| OptFiles.SortIds | src/core.rs:132 | `sort_unstable`: sorted, and a permutation of the input |
| OptFiles.ScanIds | src/core.rs:118-134 | the loop over directory entries returns sorted ids; each id appears once for each recognised name that parses to it, and other names are ignored |
| OptFiles.DirNamesFor | src/core.rs:123-131 | in a directory of canonical files, an id is named by exactly its own file, or by none |
| OptFiles.ScanOfDirNames | src/core.rs:118-134 | scanning such a directory gives its ids ascending, each once |
| OptFiles.SortedKeys | src/core.rs:132 | the sorted key list is strictly ascending and holds exactly the keys |
| OptFiles.SortedKeysUnique | src/core.rs:132 | any strictly ascending list of exactly the keys is the sorted key list |
| Registry.RenameFile | src/core.rs:68 | `fs::rename` moves the body to the target, replacing what it held, and leaves the other ids alone |
| Registry.Rename | src/core.rs:62-73 | a missing source succeeds with nothing changed; a rename of an existing file onto itself always succeeds; a refused rename fails with nothing changed; otherwise the file moves and the handle follows |
| Registry.RenameToSelf | src/core.rs:196-197 | renaming a file onto itself changes nothing and succeeds |
| Registry.RenameOverwrites | src/core.rs:62-73 | a rename onto a taken id loses one body |
| Registry.RenameToFreeId | src/core.rs:62-73 | a rename onto a free id keeps every body |
| Registry.Position | src/core.rs:190 | `position` gives the first index holding the id, and None exactly when the id is absent |
| Registry.Shift | src/core.rs:188-203 | definition of the directory an insertion at t is meant to leave; `Registry.ShiftSpec` states it and `Registry.InsertAtTakenId` proves insertion produces it |
| Registry.ShiftSpec | src/core.rs:188-203 | the intended shift: ids below t unchanged, t free, each id above t holding what the id below it held |
| Registry.RenameUpTwice | src/core.rs:195-199 | the two renames of one loop step: an accepted move succeeds (the second call renames the file onto itself), a refused move fails with nothing changed, a missing id is a successful no-op |
| Registry.InsertSteps | src/core.rs:193-200 | definition of the reverse loop: each id, last first, renamed to id+1 twice through one handle, stopping at the first failure the second rename reports; `Registry.InsertStepsHalted` and `Registry.InsertNeverLosesBodies` state its properties |
| Registry.InsertOutcome | src/core.rs:188-203 | definition: an absent id renames nothing, a present one runs `InsertSteps` from its position; `Registry.InsertAtFreeId`, `Registry.InsertAtTakenId` and `Registry.InsertNeverLosesBodies` state what it leaves |
| Registry.InsertStepsHalted | src/core.rs:197-199 | after a failed rename, no lower id is renamed |
| Registry.InsertAtFreeId | src/core.rs:190-202 | inserting at a free id renames nothing and succeeds |
| Registry.InsertDespiteRefusedSelfRenames | src/core.rs:195-202 | a file system refusing every self-rename still lets inserting at 2 into {2: b} succeed with {3: b} |
| Registry.InsertAtTakenId | src/core.rs:191-202 | inserting at a taken id, with every rename accepted, is the shift at that id |
| Registry.InsertNeverLosesBodies | src/core.rs:193-200 | under any refusals, insertion is a shift from some threshold at or above the id; on success, the threshold is the id |
| Registry.AddOnZeroBasedIds | src/core.rs:205-207 | on ids 0..n-1, add inserts at the free id n and renames nothing |
| Registry.AddOnOneBasedIds | src/core.rs:205-207 | on ids 1..n, add moves operation n to n+1 and hands out n, which lands before the last operation |
| Registry.InsertExample | src/core.rs:312-317 | ids [1,2,3], inserting at 2, give ids [1,3,4] with the bodies carried along |
| Registry.Consecutive | src/core.rs:224 | definition of the `windows(2)` test: each id is one more than the one before; `Registry.NumberedFromOne` proves ids 1..n pass it |
| Registry.Renumber | src/core.rs:228-233 | definition: for each position k of an order, the k-th id renamed to k+1, carrying on after a refused rename; `Core.OperationManager.RenumberDescending` is proved to perform it |
| Registry.Descending | src/core.rs:229 | `iter().rev()` visits positions n-1 down to 0 |
| Registry.FixedPrefix | src/core.rs:221-235 | the leading positions whose id equals their position: the ids that must move up in the corrected resort |
| Registry.SafeOrder | src/core.rs:228-233 | the corrected order: positions from p upwards, then p-1 down to 0 |
| Registry.ResortSafelyRenumbers | src/core.rs:221-235 | with every rename accepted, the corrected resort leaves consecutive ids alone, and otherwise gives ids exactly 1..n with the k-th smallest id's body at k+1 |
| Registry.ResortSafelyIdempotent | src/core.rs:222-226 | with every rename accepted, a second resort after the first changes nothing |
| Registry.NumberedFromOne | src/core.rs:224 | ids 1..n are listed in order and pass the consecutiveness test |
| Registry.ResortAsWritten | src/core.rs:221-235 | definition: consecutive ids are left alone, otherwise `Renumber` in descending order; `Registry.ResortAsWrittenKeepsAllIff` and `Registry.ResortAsWrittenWithoutCollision` characterise it |
| Registry.NoCollision | src/core.rs:228-233 | definition: the id at each position j is at most j+1 or above n, so no rename of the descending order lands on an id that has not moved yet |
| Registry.ResortAsWrittenWithoutCollision | src/core.rs:221-235 | with every rename accepted and no collision, the resort as written equals the corrected resort; when the ids are not consecutive it gives ids exactly 1..n with the k-th smallest id's body at k+1 |
| Registry.ResortAsWrittenKeepsAllIff | src/core.rs:221-235 | with every rename accepted, the resort as written never enlarges the directory, and keeps every body if and only if the ids are consecutive or free of collisions |
| Registry.ResortAsWrittenLosesBody | src/core.rs:228-233 | the resort as written turns ids {1,3,4} into {1,2}: the body at 3 is overwritten |
| Registry.AsWrittenRenames | src/core.rs:229-233 | the three renames of that example: 4 onto 3, then 3 to 2, then 1 onto itself |
| Registry.ResortOneThree | src/core.rs:221-235 | the resort as written turns {1:x,3:y} into {1:x,2:y} |
| Registry.ResortTwoFourFive | src/core.rs:228-233 | the resort as written turns {2:a,4:b,5:c} into {1:b,3:c}: a body is lost and the ids keep a gap |
| Registry.AsWrittenNotIdempotent | src/core.rs:221-235 | the resort as written is not idempotent: a second resort turns {1:b,3:c} into {1:b,2:c} |
| Registry.ResortSafelyKeepsBody | src/core.rs:221-235 | the corrected resort turns {1:a,3:b,4:c} into {1:a,2:b,3:c} |
| Registry.RemoveOutcome | src/core.rs:210-219 | definition: an unlisted id changes nothing, a listed one is deleted and the rest resorted as written; `Registry.RemoveFromZeroBased`, `Registry.RemoveExample` and `Registry.RemoveAsWrittenLosesBody` state what it leaves |
| Registry.RemoveFromZeroBased | src/core.rs:205-219 | with every rename accepted, on ids 0..n-1 (what `add_operation` builds) removing the last id leaves 0..n-2; removing any other leaves ids exactly 1..n-1, id j holding the body of id `Origin(id, j)`, so no body is lost but the ids now start at 1 |
| Registry.RemoveExample | src/core.rs:343-347 | ids [1,2,3], removing 2 and resorting as written, leave ids [1,2] holding the first and third bodies |
| Registry.RemoveAsWrittenLosesBody | src/core.rs:210-219 | on ids 1..4, removing 2 leaves {1:a,2:d}: the resort as written loses the third body as well |
| Registry.RemoveSafelyDropsOne | src/core.rs:210-219 | with the corrected resort and every rename accepted, removing a listed id leaves one operation fewer, on consecutive ids |
| Registry.RemoveSafelyKeepsBodies | src/core.rs:210-219 | with the corrected resort, removing 2 from ids 1..4 leaves {1:a,2:c,3:d} |
| Runs.Process | src/core.rs:80-94 | definition of `process` over the interpreter and parser parameters; `Runs.ProcessOutcomes` states its three outcomes |
| Runs.ProcessOutcomes | src/core.rs:80-94 | `process` passes on the interpreter's error, returns a parsed reply, or falls back to the request's data map and index with no new content and the parse error |
| Runs.ProcessRunsBody | src/python.rs:84-89 | with the bundled runner, the interpreter is handed a script that contains the operation's body |
| Runs.Chain | src/core.rs:153-179 | definition of the loop body over a given order of ids, threading data map and content index; `Runs.ChainShape`, `Runs.ChainStep` and `Runs.ChainHalted` state its properties |
| Runs.ChainShape | src/core.rs:153-179 | one output per operation run; all are Ok except possibly the last; the chain stops early if and only if the last output is an error; it ends with the last Ok output's data map and index |
| Runs.ChainStep | src/core.rs:158-170 | output i is the result of running operation i on the previous Ok output's data map and content index (the initial map and 0 for the first) |
| Runs.ChainHalted | src/core.rs:171-174 | after an error, later operations add nothing |
| Runs.ChainWithoutParses | src/core.rs:87-92 | when no reply parses, the data map never changes and every step sees content index 0 |
| Runs.LeadingRun | src/core.rs:161-164 | the ids the loop as written visits: 0, 1, ... below stop, up to the first unlisted id |
| Runs.RunAsWritten | src/core.rs:153-179 | definition: `Chain` over `LeadingRun`; `Runs.OneBasedRunsNothing` and `Runs.ZeroBasedRunsAgree` state what it runs |
| Runs.FirstListed | src/core.rs:181-186 | the corrected choice of ids: the first `stop` listed ids, ascending; every id it names is listed |
| Runs.OneBasedRunsNothing | src/core.rs:161-164 | a directory without id 0 runs nothing and keeps its data map |
| Runs.ListedRunsEveryOperation | src/core.rs:181-186 | the corrected run over all operations lists them in id order, and runs every one unless one fails |
| Runs.ZeroBasedRunsAgree | src/core.rs:161-164 | on ids 0..n-1, the loop as written and the corrected run visit the same operations |
| Core.Operation.WriteOptContent | src/core.rs:48-60 | stores exactly the extracted body and succeeds if and only if extraction succeeds; otherwise the directory is unchanged |
| Core.Operation.RenameOptContent | src/core.rs:62-73 | the directory and the handle's id are those of `Registry.Rename` |
| Core.Operation.DeleteOptContent | src/core.rs:75-78 | removes the file; succeeds if and only if it existed |
| Core.Operation.Process | src/core.rs:80-94 | the result is `Runs.Process` of the stored body, whose outcomes `Runs.ProcessOutcomes` states |
| Core.OperationManager.GetIds | src/core.rs:118-134 | the ids of the directory's operation files, ascending, each once |
| Core.OperationManager.InsertOperation | src/core.rs:188-203 | the directory becomes `InsertOutcome`; a handle at id is returned if and only if no rename failed |
| Core.OperationManager.ShiftUp | src/core.rs:193-200 | the reverse loop performs `InsertSteps` on the ids from the found position |
| Core.OperationManager.MoveUp | src/core.rs:195-197 | one handle renamed to id+1 twice gives `RenameUpTwice` |
| Core.OperationManager.AddOperation | src/core.rs:205-208 | inserts at the current number of operations |
| Core.OperationManager.RemoveOperation | src/core.rs:210-219 | succeeds if and only if the id is listed; the directory becomes the file deleted, then resorted as written (`RemoveOutcome`) |
| Core.OperationManager.RemoveOperationSafely | src/core.rs:210-219 | the same with the corrected resort (`RemoveSafelyOutcome`) |
| Core.OperationManager.ResortOperations | src/core.rs:221-235 | the resort as written: the directory becomes `ResortAsWritten` and the result is true |
| Core.OperationManager.RenumberDescending | src/core.rs:228-233 | the loop renames the k-th id to k+1 in descending order |
| Core.OperationManager.MoveTo | src/core.rs:230-231 | one handle renamed gives `Registry.Rename` |
| Core.OperationManager.ResortOperationsSafely | src/core.rs:221-235 | the corrected resort: the directory becomes `ResortSafely` |
| Core.OperationManager.RenumberSafely | src/core.rs:228-233 | the two loops of the corrected resort perform the renames of `SafeOrder` |
| Core.OperationManager.RunOperation | src/core.rs:136-151 | the result is `process` on the current data map; an Ok output's data map becomes the manager's |
| Core.OperationManager.RunOperations | src/core.rs:153-179 | the outputs and final data map are those of `RunAsWritten` |
| Core.OperationManager.RunListedOperations | src/core.rs:153-179 | the corrected loop: the outputs and data map of `RunListed` |
| Core.OperationManager.RunInOrder | src/core.rs:158-177 | runs the given ids in turn, threading data map and index; its outputs are `Chain`'s |
| Core.OperationManager.RunAllOperations | src/core.rs:181-186 | runs the loop as written with as many operations as are listed: outputs and data map of `RunAsWritten` |
| Core.OperationManager.RunAllListedOperations | src/core.rs:181-186 | the same with the corrected loop: outputs and data map of `RunListed` |

## Left out

- Id width: ids are unbounded naturals. The source's `u32` and its overflow are
  not modelled: `id + 1`, `len() as u32`, and the `new_id -= 1` that cannot
  underflow here.
- Real file I/O: `read_dir`, `fs::read`/`write`/`remove_file` and UTF-8
  decoding, with their `unwrap` panics. The directory is a map from id to body.
  A name that matches `opt-*.py` but does not parse is excluded by a
  precondition (`OptFiles.Scannable`, `Core.OptDir.Valid`).
- Non-canonical names: the directory holds each id under its canonical name
  `opt-<id>.py`. Names such as `opt-007.py` or `opt-+7.py` are shown to
  parse (`OptFiles.ParseAcceptsSignAndZeros`) but are not part of the
  directory model.
- `fs::rename` failure: modelled only as the `refuses` oracle. Properties that
  need every rename to succeed say so with `NeverRefuses`.
- The Python process: `run_python_code`'s temp files, `Command`, environment
  and stdio are a parameter of type `Interpreter`. Only the command's
  tokenisation is modelled. The `python_runner` argument does not appear in
  `Interpreter`, because core.rs calls `run_operation_python` without it.
- serde JSON (de)serialisation of `OperationData` and `OperationOutput`: a
  parser parameter that yields a record or an error message.
- `println!` logging in `insert_operation`.
- `get_opt_content`, `read_opt_content`, `get_templete` and `equals` are not
  modelled as separate members. They only read a file or compare two reads;
  `Core.Operation.Process` reads the body from the directory map, and
  `get_templete` is `Python.EditView(a, None)`.
- The runner script's contents beyond its section markers are opaque text.
- src/main.rs (command line, editor launching) and src/lib.rs (the
  compile-time macro) are not part of this model. The macro's extraction is
  `Python.LoadAssets`.
- Core.OperationManager.AddOperation: returns None where the source's
  `unwrap` panics (a refused rename during the insertion).
- Core.OperationManager.RemoveOperation: ignores the outcome of
  `delete_opt_content`, as the source does.
- Registry.ResortSafelyRenumbers, Registry.ResortSafelyIdempotent and
  Registry.RemoveSafelyDropsOne: proved only when every rename succeeds. With
  refusals, a resort skips the refused renames and may leave gaps.
- Registry.RenameUpTwice: the refusal oracle is a fixed function of (source,
  target), so a retried rename gets the same answer as the first attempt. A
  file system whose answer changes between attempts is not modelled. A
  rename of an existing file onto itself is never refused, as rename(2)
  does nothing and reports success then.
- Python.RunnerScriptSplices: states that the spliced body is contained in
  the result, not the exact shape of the whole script.
- Python.RoundTrip: assumes the preamble does not contain the marker. The
  preamble is opaque text, so the model cannot establish this itself.

## Findings

| source | as written | input that shows it | evidently intended | confidence | as-written member | corrected member |
|---|---|---|---|---|---|---|
| src/core.rs:228-233 | `resort_operations` renames the k-th smallest id to k+1, largest first, so a rename can land on an id that has not moved yet | ids {1,3,4} (what the insert test at src/core.rs:312-317 leaves, and what removing 2 from 1..4 leaves): 4 is renamed onto 3 and the body at 3 is lost, leaving {1,2} | every body kept, renumbered 1..n in order | high, not executed | Registry.ResortAsWrittenLosesBody | Registry.ResortSafelyRenumbers |
| src/core.rs:221-235 | after a lost body the result need not be consecutive, so a second `resort_operations` changes it again | ids {2,4,5}: the first resort gives {1,3}, the second {1,2} | a resorted directory is consecutive and a second resort changes nothing | high, not executed | Registry.AsWrittenNotIdempotent | Registry.ResortSafelyIdempotent |
| src/core.rs:161-164 | `run_opterations` visits ids 0, 1, ... and stops at the first missing id | ids {1,2}, which removing id 0 or 1 from ids 0..2 leaves (`Registry.RemoveFromZeroBased`): id 0 is missing, so nothing runs | run the listed operations in id order | high, not executed | Runs.OneBasedRunsNothing | Runs.ListedRunsEveryOperation |

The corrected resort (`Registry.ResortSafely`, `Core.OperationManager.ResortOperationsSafely`)
renames the ids that must come down lowest first, then the ids that must go
up highest first. `Registry.ResortSafelyKeepsBody` shows it on the same input.
`Core.OperationManager.RemoveOperation` calls the resort as written, as the
source does, so removing 2 from ids 1..4 loses a second body
(`Registry.RemoveAsWrittenLosesBody`); `Core.OperationManager.RemoveOperationSafely`
is the same operation with the corrected resort (`Registry.RemoveSafelyKeepsBodies`).

The corrected run (`Runs.RunListed`, `Core.OperationManager.RunListedOperations`)
runs the first `stop` listed ids. `Core.OperationManager.RunAllOperations` runs
the loop as written, as the source does; `Core.OperationManager.RunAllListedOperations`
is the same operation with the corrected run. `Runs.ZeroBasedRunsAgree` shows
that the corrected run agrees with the code as written whenever the ids are
0..n-1.
