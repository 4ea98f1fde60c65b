/**
 * The classes of src/core.rs: the operation directory, an `Operation` handle
 * on one `opt-<id>.py` file, and the `OperationManager` that lists, inserts,
 * removes, renumbers and runs operations. Each method is proved against the
 * specification functions of the Registry and Runs modules.
 */
module Core {
  import opened Wrappers
  import opened Python
  import opened OptFiles
  import opened Registry
  import opened Runs

  /**
   * The operation directory: the body of every `opt-<id>.py` file by id,
   * beside the entries whose names are not operation files.
   */
  class OptDir {
    var files: Files
    const others: set<string>

    /** No other entry is named like an operation file. */
    predicate Valid() {
      forall name | name in others :: !IsOptName(name)
    }

    constructor(files: Files, others: set<string>)
      requires forall name | name in others :: !IsOptName(name)
      ensures this.files == files && this.others == others
      ensures Valid()
    {
      this.files := files;
      this.others := others;
    }

    /** The entry names `read_dir` yields. */
    function Names(): set<string>
      reads this
    {
      DirNames(files.Keys, others)
    }
  }

  /** A handle on the file `opt-<id>.py` of a directory (`Operation`). */
  class Operation {
    var id: nat
    const dir: OptDir

    constructor(id: nat, dir: OptDir)
      ensures this.id == id && this.dir == dir
    {
      this.id := id;
      this.dir := dir;
    }

    /**
     * `write_opt_content`: stores the body extracted from the edited view.
     * A view without a body is refused and nothing changes; a stored body
     * is never empty (so the source's emptiness test never fires).
     */
    method WriteOptContent(userContent: string) returns (ok: bool)
      modifies dir
      ensures ok <==> OperationBody(userContent).Ok?
      ensures ok ==> dir.files == old(dir.files)[id := OperationBody(userContent).value] && dir.files[id] != []
      ensures !ok ==> dir.files == old(dir.files)
    {
      var content := OperationBody(userContent);
      if content.Err? {
        return false;
      }
      dir.files := dir.files[id := content.value];
      return true;
    }

    /**
     * `rename_opt_content`: a missing file is a success that changes
     * nothing; a rename onto its own id always succeeds; otherwise the file
     * moves (overwriting the target) and the handle follows it, unless the
     * file system refuses.
     */
    method RenameOptContent(newId: nat, refuses: RenameRefusal) returns (ok: bool)
      modifies this, dir
      ensures var r := Rename(old(dir.files), old(id), newId, refuses);
        && ok == r.ok
        && dir.files == r.files
        && id == (if r.moved then newId else old(id))
    {
      if id !in dir.files {
        return true;
      }
      ok := id == newId || !refuses(id, newId);
      if ok {
        dir.files := RenameFile(dir.files, id, newId);
        id := newId;
      }
    }

    /** `delete_opt_content`: removes the file; it fails only when there is none. */
    method DeleteOptContent() returns (ok: bool)
      modifies dir
      ensures ok <==> id in old(dir.files)
      ensures dir.files == old(dir.files) - {id}
    {
      ok := id in dir.files;
      dir.files := dir.files - {id};
    }

    /**
     * `process`: runs this operation's body on a request. A reply that does
     * not parse still succeeds, carrying the request's data map and content
     * index forward.
     */
    method Process(data: OperationData, host: Host) returns (r: Result<OperationOutput, string>)
      requires id in dir.files
      ensures r == Runs.Process(dir.files[id], data, host)
    {
      var code := dir.files[id];
      var reply := host.interpreter(RunnerScript(host.assets, code), data);
      if reply.Err? {
        return Err(reply.error);
      }
      var parsed := host.parse(reply.value);
      if parsed.Ok? {
        return Ok(parsed.value);
      }
      return Ok(OperationOutput(data.dataMap, data.contentIndex, "", parsed.error));
    }
  }

  /** `OperationManager`: the directory and the data map carried between runs. */
  class OperationManager {
    const dir: OptDir
    var dataMap: DataMap

    constructor(dir: OptDir)
      ensures this.dir == dir && dataMap == map[]
    {
      this.dir := dir;
      dataMap := map[];
    }

    /** `get_ids`: the ids of the directory's operation files, ascending, each once. */
    method GetIds() returns (ids: seq<nat>)
      requires dir.Valid()
      ensures ids == SortedKeys(dir.files.Keys)
    {
      var names := dir.Names();
      DirNamesScannable(dir.files.Keys, dir.others);
      ids := ScanIds(names);
      ScanOfDirNames(dir.files.Keys, dir.others, ids);
    }

    /**
     * `insert_operation`: when `id` is taken, renames every id from `id`
     * upwards to its successor, largest first, and gives up (no handle) at
     * the first refused rename; then hands out `id`.
     */
    method InsertOperation(id: nat, refuses: RenameRefusal) returns (r: Option<Operation>)
      requires dir.Valid()
      modifies dir
      ensures dir.files == InsertOutcome(old(dir.files), id, refuses).files
      ensures r.Some? <==> InsertOutcome(old(dir.files), id, refuses).ok
      ensures r.Some? ==> fresh(r.value) && r.value.id == id && r.value.dir == dir
    {
      var ids := GetIds();
      InsertOutcomeUnfold(dir.files, id, ids, refuses);
      var index := Position(ids, id);
      if index.Some? {
        var ok := ShiftUp(ids, index.value, refuses);
        if !ok {
          return None;
        }
      }
      var handle := new Operation(id, dir);
      return Some(handle);
    }

    /**
     * The loop of `insert_operation`: renames `ids[k]` to `ids[k] + 1` (twice,
     * through the handle the first rename leaves) for k from the last
     * position down to `lo`, stopping at the first refusal.
     */
    method ShiftUp(ids: seq<nat>, lo: nat, refuses: RenameRefusal) returns (ok: bool)
      requires lo <= |ids|
      modifies dir
      ensures InsertSteps(old(dir.files), ids[lo..], refuses) == Shifted(dir.files, ok)
    {
      ghost var m0 := dir.files;
      var k := |ids|;
      assert ids[k..] == [];
      while k > lo
        invariant lo <= k <= |ids|
        invariant InsertSteps(m0, ids[k..], refuses) == Shifted(dir.files, true)
        decreases k
      {
        var i := k - 1;
        InsertStep(m0, ids, i, k, dir.files, refuses);
        ok := MoveUp(ids[i], refuses);
        if !ok {
          InsertStepsHalted(m0, ids, lo, i, refuses);
          return;
        }
        k := i;
      }
      return true;
    }

    /** One step of the insertion loop: a handle on `opt-<id>.py`, renamed to `id + 1` twice. */
    method MoveUp(id: nat, refuses: RenameRefusal) returns (ok: bool)
      modifies dir
      ensures RenameUpTwice(old(dir.files), id, refuses) == Shifted(dir.files, ok)
    {
      var opt := new Operation(id, dir);
      var _ := opt.RenameOptContent(id + 1, refuses);
      ok := opt.RenameOptContent(id + 1, refuses);
    }

    /** `add_operation`: inserts at the current number of operations (None where the source panics). */
    method AddOperation(refuses: RenameRefusal) returns (r: Option<Operation>)
      requires dir.Valid()
      modifies dir
      ensures dir.files == InsertOutcome(old(dir.files), |old(dir.files)|, refuses).files
      ensures r.Some? <==> InsertOutcome(old(dir.files), |old(dir.files)|, refuses).ok
      ensures r.Some? ==> fresh(r.value) && r.value.id == |old(dir.files)| && r.value.dir == dir
    {
      var ids := GetIds();
      r := InsertOperation(|ids|, refuses);
    }

    /**
     * `remove_operation`: a listed id has its file deleted and the rest are
     * renumbered by `resort_operations`; an unlisted id changes nothing.
     */
    method RemoveOperation(id: nat, refuses: RenameRefusal) returns (ok: bool)
      requires dir.Valid()
      modifies dir
      ensures ok <==> id in old(dir.files)
      ensures dir.files == RemoveOutcome(old(dir.files), id, refuses)
    {
      var ids := GetIds();
      if id in ids {
        var opt := new Operation(id, dir);
        var _ := opt.DeleteOptContent();
        var _ := ResortOperations(refuses);
        return true;
      }
      return false;
    }

    /** `remove_operation` with the corrected resort. */
    method RemoveOperationSafely(id: nat, refuses: RenameRefusal) returns (ok: bool)
      requires dir.Valid()
      modifies dir
      ensures ok <==> id in old(dir.files)
      ensures dir.files == RemoveSafelyOutcome(old(dir.files), id, refuses)
    {
      var ids := GetIds();
      if id in ids {
        var opt := new Operation(id, dir);
        var _ := opt.DeleteOptContent();
        var _ := ResortOperationsSafely(refuses);
        return true;
      }
      return false;
    }

    /**
     * `resort_operations` as written: unless the ids are consecutive, the
     * k-th smallest id is renamed to k + 1, largest first, whatever each
     * rename reports.
     */
    method ResortOperations(refuses: RenameRefusal) returns (ok: bool)
      requires dir.Valid()
      modifies dir
      ensures ok
      ensures dir.files == ResortAsWritten(old(dir.files), refuses)
    {
      var ids := GetIds();
      ResortAsWrittenUnfold(dir.files, ids, refuses);
      if !Consecutive(ids) {
        RenumberDescending(ids, refuses);
      }
      return true;
    }

    /** The loop of `resort_operations`: `ids[i]` becomes `i + 1`, for i from the last position down. */
    method RenumberDescending(ids: seq<nat>, refuses: RenameRefusal)
      modifies dir
      ensures dir.files == Renumber(old(dir.files), ids, Descending(|ids|), refuses)
    {
      var n := |ids|;
      ghost var m0 := dir.files;
      ghost var order := Descending(n);
      ghost var done := 0;
      assert order[..done] == [];
      var newId := n;
      for i := n downto 0
        invariant done == n - i && newId == i
        invariant dir.files == Renumber(m0, ids, order[..done], refuses)
      {
        ghost var before := dir.files;
        MoveTo(ids[i], newId, refuses);
        RenumberStep(m0, ids, order, done, done + 1, ids[i], i + 1, before, dir.files, refuses);
        newId := newId - 1;
        done := done + 1;
      }
      assert order[..done] == order;
    }

    /** One rename of the resort loops: a handle on `opt-<id>.py`, renamed to `newId`. */
    method MoveTo(id: nat, newId: nat, refuses: RenameRefusal)
      modifies dir
      ensures dir.files == Rename(old(dir.files), id, newId, refuses).files
    {
      var opt := new Operation(id, dir);
      var _ := opt.RenameOptContent(newId, refuses);
    }

    /**
     * `resort_operations` with the rename order corrected: the ids that must
     * come down are renamed lowest first, then those that must go up,
     * highest first, so that no rename lands on a file not yet moved.
     */
    method ResortOperationsSafely(refuses: RenameRefusal) returns (ok: bool)
      requires dir.Valid()
      modifies dir
      ensures ok
      ensures dir.files == ResortSafely(old(dir.files), refuses)
    {
      var ids := GetIds();
      ResortSafelyUnfold(dir.files, ids, refuses);
      if !Consecutive(ids) {
        var p := FixedPrefix(ids);
        RenumberSafely(ids, p, refuses);
      }
      return true;
    }

    /**
     * The loops of the corrected resort: `ids[k]` becomes `k + 1`, first for
     * k from `p` up to the last position, then for k from `p - 1` down to 0.
     */
    method RenumberSafely(ids: seq<nat>, p: nat, refuses: RenameRefusal)
      requires p <= |ids|
      modifies dir
      ensures dir.files == Renumber(old(dir.files), ids, SafeOrder(|ids|, p), refuses)
    {
      ghost var order := SafeOrder(|ids|, p);
      RenumberUpward(ids, p, order, dir.files, refuses);
      RenumberDownward(ids, p, order, old(dir.files), refuses);
      assert order[..|ids|] == order;
    }

    /** The first loop of the corrected resort: `ids[k]` becomes `k + 1` for k from `p` upwards. */
    method RenumberUpward(ids: seq<nat>, p: nat, ghost order: seq<nat>, ghost m0: Files, refuses: RenameRefusal)
      requires p <= |ids| && order == SafeOrder(|ids|, p)
      requires dir.files == m0
      modifies dir
      ensures dir.files == Renumber(m0, ids, order[..|ids| - p], refuses)
    {
      ghost var done := 0;
      assert order[..done] == [];
      for k := p to |ids|
        invariant done == k - p
        invariant dir.files == Renumber(m0, ids, order[..done], refuses)
      {
        ghost var before := dir.files;
        MoveTo(ids[k], k + 1, refuses);
        RenumberStep(m0, ids, order, done, done + 1, ids[k], k + 1, before, dir.files, refuses);
        done := done + 1;
      }
    }

    /** The second loop of the corrected resort: `ids[k]` becomes `k + 1` for k from `p - 1` down to 0. */
    method RenumberDownward(ids: seq<nat>, p: nat, ghost order: seq<nat>, ghost m0: Files, refuses: RenameRefusal)
      requires p <= |ids| == |order|
      requires forall i | |ids| - p <= i < |ids| :: order[i] == |ids| - 1 - i
      requires dir.files == Renumber(m0, ids, order[..|ids| - p], refuses)
      modifies dir
      ensures dir.files == Renumber(m0, ids, order[..|ids|], refuses)
    {
      ghost var n := |ids|;
      ghost var done := n - p;
      for k := p downto 0
        invariant done == n - k
        invariant dir.files == Renumber(m0, ids, order[..done], refuses)
      {
        ghost var before := dir.files;
        MoveTo(ids[k], k + 1, refuses);
        SafeStepDown(m0, ids, p, order, done, k, before, dir.files, refuses);
        done := done + 1;
      }
    }

    /**
     * `run_operation`: runs operation `id` on the current data map; a
     * successful output's data map becomes the manager's.
     */
    method RunOperation(id: nat, fullContent: string, contentIndex: nat, host: Host) returns (r: Result<OperationOutput, string>)
      requires id in dir.files
      modifies this
      ensures r == Runs.Process(dir.files[id], OperationData(old(dataMap), fullContent, contentIndex), host)
      ensures dataMap == if r.Ok? then r.value.dataMap else old(dataMap)
    {
      var opt := new Operation(id, dir);
      r := opt.Process(OperationData(dataMap, fullContent, contentIndex), host);
      if r.Ok? {
        dataMap := r.value.dataMap;
      }
    }

    /**
     * `run_opterations` as written: runs ids 0, 1, ... below `stopId` while
     * they are listed, threading the data map and the content index, and
     * stops after the first error.
     */
    method RunOperations(stopId: nat, fullContent: string, host: Host) returns (outputs: seq<Result<OperationOutput, string>>)
      requires dir.Valid()
      modifies this
      ensures var run := RunAsWritten(dir.files, stopId, old(dataMap), fullContent, host);
        outputs == run.outputs && dataMap == run.dataMap
    {
      var contentIndex := 0;
      outputs := [];
      var ids := GetIds();
      ghost var order := LeadingRun(dir.files.Keys, stopId);
      var id := 0;
      assert order[..id] == [];
      while id < stopId
        invariant id <= |order|
        invariant Chain(dir.files, order[..id], old(dataMap), fullContent, host) == Run(outputs, dataMap, contentIndex, false)
      {
        if id !in ids {
          break;
        }
        ghost var prev := Run(outputs, dataMap, contentIndex, false);
        var output := RunOperation(id, fullContent, contentIndex, host);
        ChainNext(dir.files, order, id, id + 1, old(dataMap), fullContent, host, prev, output);
        if output.Err? {
          outputs := outputs + [output];
          ChainHalted(dir.files, order, id + 1, old(dataMap), fullContent, host);
          return;
        }
        dataMap := output.value.dataMap;
        contentIndex := output.value.contentIndex;
        outputs := outputs + [output];
        id := id + 1;
      }
      assert order[..id] == order;
    }

    /**
     * The corrected run: the first `stopId` listed operations in id order,
     * threading the data map and the content index, stopping after the
     * first error.
     */
    method RunListedOperations(stopId: nat, fullContent: string, host: Host) returns (outputs: seq<Result<OperationOutput, string>>)
      requires dir.Valid()
      modifies this
      ensures var run := RunListed(dir.files, stopId, old(dataMap), fullContent, host);
        outputs == run.outputs && dataMap == run.dataMap
    {
      var ids := GetIds();
      var count := if stopId < |ids| then stopId else |ids|;
      assert ids[..count] == FirstListed(dir.files.Keys, stopId);
      outputs := RunInOrder(ids[..count], fullContent, host);
    }

    /** Runs the listed operations one after another, stopping after the first error. */
    method RunInOrder(order: seq<nat>, fullContent: string, host: Host) returns (outputs: seq<Result<OperationOutput, string>>)
      requires forall i | 0 <= i < |order| :: order[i] in dir.files
      modifies this
      ensures var run := Chain(dir.files, order, old(dataMap), fullContent, host);
        outputs == run.outputs && dataMap == run.dataMap
    {
      var contentIndex := 0;
      outputs := [];
      var k := 0;
      assert order[..k] == [];
      while k < |order|
        invariant k <= |order|
        invariant Chain(dir.files, order[..k], old(dataMap), fullContent, host) == Run(outputs, dataMap, contentIndex, false)
      {
        ghost var prev := Run(outputs, dataMap, contentIndex, false);
        var output := RunOperation(order[k], fullContent, contentIndex, host);
        ChainNext(dir.files, order, k, k + 1, old(dataMap), fullContent, host, prev, output);
        if output.Err? {
          outputs := outputs + [output];
          ChainHalted(dir.files, order, k + 1, old(dataMap), fullContent, host);
          return;
        }
        dataMap := output.value.dataMap;
        contentIndex := output.value.contentIndex;
        outputs := outputs + [output];
        k := k + 1;
      }
      assert order[..k] == order;
    }

    /** `run_all_operations`: the run as written, with as many ids as are listed. */
    method RunAllOperations(fullContent: string, host: Host) returns (outputs: seq<Result<OperationOutput, string>>)
      requires dir.Valid()
      modifies this
      ensures var run := RunAsWritten(dir.files, |dir.files|, old(dataMap), fullContent, host);
        outputs == run.outputs && dataMap == run.dataMap
    {
      var ids := GetIds();
      outputs := RunOperations(|ids|, fullContent, host);
    }

    /** `run_all_operations` with the corrected run: every listed operation, in id order. */
    method RunAllListedOperations(fullContent: string, host: Host) returns (outputs: seq<Result<OperationOutput, string>>)
      requires dir.Valid()
      modifies this
      ensures var run := RunListed(dir.files, |dir.files|, old(dataMap), fullContent, host);
        outputs == run.outputs && dataMap == run.dataMap
    {
      var ids := GetIds();
      outputs := RunListedOperations(|ids|, fullContent, host);
    }
  }
}
