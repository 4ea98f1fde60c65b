/**
 * Running operations (src/core.rs `process`, `run_operation`,
 * `run_opterations`): each operation's body is spliced into the runner
 * script and handed to the Python interpreter together with the request; the
 * reply is parsed back into an output record, and a chain of operations
 * threads the data map and the content index from one to the next.
 */
module Runs {
  import opened Wrappers
  import opened Python
  import opened OptFiles
  import opened Registry

  type DataMap = map<string, string>

  /** The request an operation receives (`OperationData`). */
  datatype OperationData = OperationData(dataMap: DataMap, fullContent: string, contentIndex: nat)

  /** What an operation reports (`OperationOutput`). */
  datatype OperationOutput = OperationOutput(dataMap: DataMap, contentIndex: nat, newContent: string, errorMessage: string)

  /**
   * The Python process (`run_operation_python`): given the runner script and
   * the request, what the script left in its output file, or the error the
   * launch or the script produced.
   */
  type Interpreter = (string, OperationData) -> Result<string, string>

  /** serde_json's reading of an `OperationOutput` from text, or its error message. */
  type OutputParser = string -> Result<OperationOutput, string>

  /** Everything outside the model a run depends on. */
  datatype Host = Host(assets: Assets, interpreter: Interpreter, parse: OutputParser)

  /**
   * `process`: the interpreter runs the runner script holding `body`. An
   * interpreter error is passed on; a reply that does not parse becomes an
   * output that carries the request's data map and content index forward,
   * with no new content and the parse error as its message.
   */
  function Process(body: string, data: OperationData, host: Host): Result<OperationOutput, string> {
    match host.interpreter(RunnerScript(host.assets, body), data)
    case Err(e) => Err(e)
    case Ok(reply) =>
      match host.parse(reply)
      case Ok(output) => Ok(output)
      case Err(message) => Ok(OperationOutput(data.dataMap, data.contentIndex, "", message))
  }

  /**
   * The three outcomes of `process`: the interpreter's error, the parsed
   * reply, or the fallback record that leaves the data map and the content
   * index where they were.
   */
  lemma ProcessOutcomes(body: string, data: OperationData, host: Host)
    ensures var run := host.interpreter(RunnerScript(host.assets, body), data);
      && (run.Err? ==> Process(body, data, host) == Err(run.error))
      && (run.Ok? && host.parse(run.value).Ok? ==> Process(body, data, host) == Ok(host.parse(run.value).value))
      && (run.Ok? && host.parse(run.value).Err? ==>
            && Process(body, data, host).Ok?
            && Process(body, data, host).value.dataMap == data.dataMap
            && Process(body, data, host).value.contentIndex == data.contentIndex
            && Process(body, data, host).value.newContent == []
            && Process(body, data, host).value.errorMessage == host.parse(run.value).error)
  {
  }

  /** The script handed to the interpreter always holds the operation's body, with the bundled runner. */
  lemma ProcessRunsBody(body: string, host: Host)
    requires LoadAssets(host.assets.runner) == Some(host.assets)
    ensures Text.Contains(RunnerScript(host.assets, body), body)
  {
    BundledRunnerHoldsBody(host.assets.runner, body);
  }

  /** The state a chain of runs has reached. */
  datatype Run = Run(outputs: seq<Result<OperationOutput, string>>, dataMap: DataMap, contentIndex: nat, halted: bool)

  /**
   * Runs the operations of `order` in turn, starting from the data map
   * `dataMap` and content index 0: each step gets the previous successful
   * output's data map and content index, and the first error ends the chain
   * (it is the last output).
   */
  function Chain(files: Files, order: seq<nat>, dataMap: DataMap, fullContent: string, host: Host): Run
    decreases |order|
  {
    if order == [] then Run([], dataMap, 0, false)
    else
      var prev := Chain(files, order[..|order| - 1], dataMap, fullContent, host);
      var id := order[|order| - 1];
      if prev.halted || id !in files then prev
      else
        match Process(files[id], OperationData(prev.dataMap, fullContent, prev.contentIndex), host)
        case Err(e) => Run(prev.outputs + [Err(e)], prev.dataMap, prev.contentIndex, true)
        case Ok(output) => Run(prev.outputs + [Ok(output)], output.dataMap, output.contentIndex, false)
  }

  /** The data map the step after output `i` starts from. */
  function DataBefore(dataMap: DataMap, outputs: seq<Result<OperationOutput, string>>, i: nat): DataMap
    requires i <= |outputs|
    requires i > 0 ==> outputs[i - 1].Ok?
  {
    if i == 0 then dataMap else outputs[i - 1].value.dataMap
  }

  /** The content index the step after output `i` starts from. */
  function IndexBefore(outputs: seq<Result<OperationOutput, string>>, i: nat): nat
    requires i <= |outputs|
    requires i > 0 ==> outputs[i - 1].Ok?
  {
    if i == 0 then 0 else outputs[i - 1].value.contentIndex
  }

  /** The data map of the last successful output, or `dataMap` when there is none. */
  function LastData(dataMap: DataMap, outputs: seq<Result<OperationOutput, string>>): DataMap
    decreases |outputs|
  {
    if outputs == [] then dataMap
    else if outputs[|outputs| - 1].Ok? then outputs[|outputs| - 1].value.dataMap
    else LastData(dataMap, outputs[..|outputs| - 1])
  }

  /** The content index of the last successful output, or 0 when there is none. */
  function LastIndex(outputs: seq<Result<OperationOutput, string>>): nat
    decreases |outputs|
  {
    if outputs == [] then 0
    else if outputs[|outputs| - 1].Ok? then outputs[|outputs| - 1].value.contentIndex
    else LastIndex(outputs[..|outputs| - 1])
  }

  /** A chain extends the chain over all but its last operation. */
  lemma ChainExtends(files: Files, order: seq<nat>, dataMap: DataMap, fullContent: string, host: Host)
    requires forall i | 0 <= i < |order| :: order[i] in files
    requires order != []
    ensures var prev := Chain(files, order[..|order| - 1], dataMap, fullContent, host);
      var run := Chain(files, order, dataMap, fullContent, host);
      && |prev.outputs| <= |run.outputs| <= |prev.outputs| + 1
      && run.outputs[..|prev.outputs|] == prev.outputs
      && (prev.halted ==> run == prev)
      && (!prev.halted ==> |run.outputs| == |prev.outputs| + 1)
      && (!prev.halted ==>
            run.outputs[|prev.outputs|]
              == Process(files[order[|order| - 1]], OperationData(prev.dataMap, fullContent, prev.contentIndex), host))
  {
  }

  /**
   * A chain produces one output per operation it ran, all successful except
   * possibly the last; it stops early exactly when that last one is an error,
   * and it ends with the data map and content index of its last successful
   * output (the initial data map and 0 when there is none).
   */
  lemma {:induction false} ChainShape(files: Files, order: seq<nat>, dataMap: DataMap, fullContent: string, host: Host)
    requires forall i | 0 <= i < |order| :: order[i] in files
    ensures var run := Chain(files, order, dataMap, fullContent, host);
      && |run.outputs| <= |order|
      && (forall i | 0 <= i < |run.outputs| - 1 :: run.outputs[i].Ok?)
      && (run.halted <==> run.outputs != [] && run.outputs[|run.outputs| - 1].Err?)
      && (!run.halted ==> |run.outputs| == |order|)
      && run.dataMap == LastData(dataMap, run.outputs)
      && run.contentIndex == LastIndex(run.outputs)
    decreases |order|
  {
    if order != [] {
      var init := order[..|order| - 1];
      ChainShape(files, init, dataMap, fullContent, host);
      ChainExtends(files, order, dataMap, fullContent, host);
      var prev := Chain(files, init, dataMap, fullContent, host);
      var run := Chain(files, order, dataMap, fullContent, host);
      if !prev.halted {
        var n := |prev.outputs|;
        assert run.outputs[..n] == prev.outputs;
        forall i | 0 <= i < |run.outputs| - 1 ensures run.outputs[i].Ok? {
          assert run.outputs[i] == prev.outputs[i];
        }
      }
    }
  }

  /**
   * Output `i` of a chain is the result of running operation `i` on the
   * previous output's data map and content index (the initial data map and 0
   * for the first one).
   */
  lemma {:induction false} ChainStep(files: Files, order: seq<nat>, dataMap: DataMap, fullContent: string, host: Host, i: nat)
    requires forall k | 0 <= k < |order| :: order[k] in files
    requires i < |Chain(files, order, dataMap, fullContent, host).outputs|
    ensures var run := Chain(files, order, dataMap, fullContent, host);
      && i < |order|
      && (i > 0 ==> run.outputs[i - 1].Ok?)
      && run.outputs[i] == Process(files[order[i]],
                                   OperationData(DataBefore(dataMap, run.outputs, i), fullContent, IndexBefore(run.outputs, i)),
                                   host)
    decreases |order|
  {
    var init := order[..|order| - 1];
    ChainExtends(files, order, dataMap, fullContent, host);
    var prev := Chain(files, init, dataMap, fullContent, host);
    if i < |prev.outputs| {
      ChainStep(files, init, dataMap, fullContent, host, i);
      StepFromPrefix(files, order, dataMap, fullContent, host, i);
    } else {
      LastStep(files, order, dataMap, fullContent, host);
    }
  }

  lemma StepFromPrefix(files: Files, order: seq<nat>, dataMap: DataMap, fullContent: string, host: Host, i: nat)
    requires forall k | 0 <= k < |order| :: order[k] in files
    requires order != []
    requires var prev := Chain(files, order[..|order| - 1], dataMap, fullContent, host);
      && i < |prev.outputs| && i < |order| - 1
      && (i > 0 ==> prev.outputs[i - 1].Ok?)
      && prev.outputs[i] == Process(files[order[i]],
                                    OperationData(DataBefore(dataMap, prev.outputs, i), fullContent, IndexBefore(prev.outputs, i)),
                                    host)
    ensures var run := Chain(files, order, dataMap, fullContent, host);
      && i < |run.outputs|
      && (i > 0 ==> run.outputs[i - 1].Ok?)
      && run.outputs[i] == Process(files[order[i]],
                                   OperationData(DataBefore(dataMap, run.outputs, i), fullContent, IndexBefore(run.outputs, i)),
                                   host)
  {
    ChainExtends(files, order, dataMap, fullContent, host);
    var prev := Chain(files, order[..|order| - 1], dataMap, fullContent, host);
    var run := Chain(files, order, dataMap, fullContent, host);
    assert run.outputs[i] == prev.outputs[i];
    assert i > 0 ==> run.outputs[i - 1] == prev.outputs[i - 1];
  }

  lemma LastStep(files: Files, order: seq<nat>, dataMap: DataMap, fullContent: string, host: Host)
    requires forall k | 0 <= k < |order| :: order[k] in files
    requires order != []
    requires |Chain(files, order[..|order| - 1], dataMap, fullContent, host).outputs|
             < |Chain(files, order, dataMap, fullContent, host).outputs|
    ensures var run := Chain(files, order, dataMap, fullContent, host);
      var i := |Chain(files, order[..|order| - 1], dataMap, fullContent, host).outputs|;
      && i < |order|
      && (i > 0 ==> run.outputs[i - 1].Ok?)
      && run.outputs[i] == Process(files[order[i]],
                                   OperationData(DataBefore(dataMap, run.outputs, i), fullContent, IndexBefore(run.outputs, i)),
                                   host)
  {
    var init := order[..|order| - 1];
    ChainExtends(files, order, dataMap, fullContent, host);
    ChainShape(files, init, dataMap, fullContent, host);
    var prev := Chain(files, init, dataMap, fullContent, host);
    var run := Chain(files, order, dataMap, fullContent, host);
    var i := |prev.outputs|;
    if i > 0 {
      assert run.outputs[i - 1] == prev.outputs[i - 1];
      assert prev.outputs[..i - 1] + [prev.outputs[i - 1]] == prev.outputs;
    }
  }

  /** One more step of a chain that has not stopped. */
  lemma ChainNext(files: Files, order: seq<nat>, i: nat, j: nat, dataMap: DataMap, fullContent: string, host: Host,
                  prev: Run, output: Result<OperationOutput, string>)
    requires j == i + 1 <= |order| && order[i] in files
    requires Chain(files, order[..i], dataMap, fullContent, host) == prev && !prev.halted
    requires output == Process(files[order[i]], OperationData(prev.dataMap, fullContent, prev.contentIndex), host)
    ensures Chain(files, order[..j], dataMap, fullContent, host)
            == if output.Err? then Run(prev.outputs + [output], prev.dataMap, prev.contentIndex, true)
               else Run(prev.outputs + [output], output.value.dataMap, output.value.contentIndex, false)
  {
    assert order[..j][..i] == order[..i];
  }

  /** Once a chain has stopped on an error, running further operations adds nothing. */
  lemma {:induction false} ChainHalted(files: Files, order: seq<nat>, j: nat, dataMap: DataMap, fullContent: string, host: Host)
    requires forall i | 0 <= i < |order| :: order[i] in files
    requires j <= |order|
    requires Chain(files, order[..j], dataMap, fullContent, host).halted
    ensures Chain(files, order, dataMap, fullContent, host) == Chain(files, order[..j], dataMap, fullContent, host)
    decreases |order| - j
  {
    if j < |order| {
      var init := order[..|order| - 1];
      assert init[..j] == order[..j];
      ChainHalted(files, init, j, dataMap, fullContent, host);
    } else {
      assert order[..j] == order;
    }
  }

  /**
   * When no reply parses, every output is a fallback record: the data map
   * never changes and every step sees content index 0.
   */
  lemma {:induction false} ChainWithoutParses(files: Files, order: seq<nat>, dataMap: DataMap, fullContent: string, host: Host)
    requires forall i | 0 <= i < |order| :: order[i] in files
    requires forall reply :: host.parse(reply).Err?
    ensures Chain(files, order, dataMap, fullContent, host).dataMap == dataMap
    ensures Chain(files, order, dataMap, fullContent, host).contentIndex == 0
    ensures forall i | 0 <= i < |Chain(files, order, dataMap, fullContent, host).outputs| ::
              var output := Chain(files, order, dataMap, fullContent, host).outputs[i];
              output.Ok? ==> output.value.dataMap == dataMap && output.value.contentIndex == 0 && output.value.newContent == []
    decreases |order|
  {
    if order != [] {
      var init := order[..|order| - 1];
      ChainWithoutParses(files, init, dataMap, fullContent, host);
      var prev := Chain(files, init, dataMap, fullContent, host);
      var run := Chain(files, order, dataMap, fullContent, host);
      if !prev.halted {
        assert run.outputs[..|prev.outputs|] == prev.outputs;
        var data := OperationData(prev.dataMap, fullContent, prev.contentIndex);
        var reply := host.interpreter(RunnerScript(host.assets, files[order[|order| - 1]]), data);
        if reply.Ok? {
          assert host.parse(reply.value).Err?;
        }
      }
    }
  }

  // ---------------------------------------------------------------------------
  // Which operations run
  // ---------------------------------------------------------------------------

  /**
   * The ids `run_opterations(stop)` visits: 0, 1, 2, ... below `stop`, up to
   * the first id that is not in the directory.
   */
  function LeadingRun(keys: set<nat>, stop: nat): (order: seq<nat>)
    ensures |order| <= stop
    ensures forall i | 0 <= i < |order| :: order[i] == i && i in keys
    ensures |order| < stop ==> |order| !in keys
    decreases stop
  {
    if stop == 0 then []
    else
      var order := LeadingRun(keys, stop - 1);
      if |order| == stop - 1 && stop - 1 in keys then order + [stop - 1] else order
  }

  /** The corrected choice: the first `stop` ids the directory lists, in ascending order. */
  ghost function FirstListed(keys: set<nat>, stop: nat): (order: seq<nat>)
    ensures forall i | 0 <= i < |order| :: order[i] in keys
  {
    var ids := SortedKeys(keys);
    ids[..if stop < |ids| then stop else |ids|]
  }

  /** `run_opterations` as written. */
  ghost function RunAsWritten(files: Files, stop: nat, dataMap: DataMap, fullContent: string, host: Host): Run {
    Chain(files, LeadingRun(files.Keys, stop), dataMap, fullContent, host)
  }

  /** The corrected run: the first `stop` listed operations, in id order. */
  ghost function RunListed(files: Files, stop: nat, dataMap: DataMap, fullContent: string, host: Host): Run {
    Chain(files, FirstListed(files.Keys, stop), dataMap, fullContent, host)
  }

  /**
   * The run as written assumes the ids start at 0: a directory numbered
   * from 1 (what resorting produces) runs nothing, and the data map stays
   * as it was.
   */
  lemma OneBasedRunsNothing(files: Files, stop: nat, dataMap: DataMap, fullContent: string, host: Host)
    requires 0 !in files
    ensures RunAsWritten(files, stop, dataMap, fullContent, host) == Run([], dataMap, 0, false)
  {
  }

  /**
   * The corrected run over as many operations as there are runs every one
   * of them, in id order, unless one of them fails.
   */
  lemma ListedRunsEveryOperation(files: Files, dataMap: DataMap, fullContent: string, host: Host)
    ensures FirstListed(files.Keys, |files|) == SortedKeys(files.Keys)
    ensures var run := RunListed(files, |files|, dataMap, fullContent, host);
      !run.halted ==> |run.outputs| == |files|
  {
    var ids := SortedKeys(files.Keys);
    assert ids[..|ids|] == ids;
    ChainShape(files, ids, dataMap, fullContent, host);
  }

  /** Where the ids are 0..n-1, they are listed as 0, 1, ..., n-1. */
  lemma ZeroBasedListing(keys: set<nat>, n: nat)
    requires forall j: nat :: j in keys <==> j < n
    ensures SortedKeys(keys) == seq(n, i requires 0 <= i < n => i)
  {
    var ids := seq(n, i requires 0 <= i < n => i);
    forall j ensures j in ids <==> j in keys {
      if j in keys { assert ids[j] == j; }
    }
    SortedKeysUnique(ids, keys);
  }

  /** Where the ids are 0..n-1, the run as written visits the first `c` of them, `c` being `stop` capped at n. */
  lemma ZeroBasedLeadingRun(keys: set<nat>, n: nat, stop: nat, c: nat)
    requires forall j: nat :: j in keys <==> j < n
    requires c == if stop < n then stop else n
    ensures LeadingRun(keys, stop) == seq(c, i requires 0 <= i < n => i)
  {
  }

  /** The first `c` of 0, 1, ..., n-1. */
  lemma CountingPrefix(n: nat, c: nat)
    requires c <= n
    ensures seq(n, i requires 0 <= i < n => i)[..c] == seq(c, i requires 0 <= i < n => i)
  {
  }

  /** Where the ids are 0..n-1, the run as written and the corrected run visit the same operations. */
  lemma ZeroBasedRunsAgree(files: Files, stop: nat)
    requires forall j: nat :: j in files <==> j < |files|
    ensures LeadingRun(files.Keys, stop) == FirstListed(files.Keys, stop)
  {
    var n := |files|;
    var c := if stop < n then stop else n;
    ZeroBasedListing(files.Keys, n);
    ZeroBasedLeadingRun(files.Keys, n, stop, c);
    CountingPrefix(n, c);
  }
}
