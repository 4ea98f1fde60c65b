/**
 * The operation directory of src/core.rs as a map from id to the body
 * stored in `opt-<id>.py`, and the effect on it of the renames that
 * `rename_opt_content`, `insert_operation` and `resort_operations` perform.
 */
module Registry {
  import opened Wrappers
  import opened OptFiles

  /** The operation files of one directory: id to body. */
  type Files = map<nat, string>

  /**
   * Whether the file system refuses to move `opt-src.py` to `opt-dst.py`
   * (`fs::rename` returning an error). It stands for the outside world,
   * which the model does not see.
   */
  type RenameRefusal = (nat, nat) -> bool

  ghost predicate NeverRefuses(refuses: RenameRefusal) {
    forall src, dst :: !refuses(src, dst)
  }

  /** `fs::rename` of an existing file: the body moves, replacing whatever the target held. */
  function RenameFile(m: Files, src: nat, dst: nat): (r: Files)
    requires src in m
    ensures r.Keys == m.Keys - {src} + {dst}
    ensures r[dst] == m[src]
    ensures forall j | j in m && j != src && j != dst :: r[j] == m[j]
  {
    (m - {src})[dst := m[src]]
  }

  /** What one `rename_opt_content` call leaves behind. */
  datatype RenameOutcome = RenameOutcome(files: Files, ok: bool, moved: bool)

  /**
   * `rename_opt_content(dst)` on a handle at `src`: a missing source is a
   * success that changes nothing; a rename of an existing file onto itself
   * always succeeds (rename(2) does nothing and reports success); otherwise
   * the file system either refuses (false, nothing changes) or moves the
   * file and the handle follows it.
   */
  function Rename(m: Files, src: nat, dst: nat, refuses: RenameRefusal): (r: RenameOutcome)
    ensures r.ok <==> src !in m || src == dst || !refuses(src, dst)
    ensures r.moved <==> src in m && (src == dst || !refuses(src, dst))
    ensures !r.moved ==> r.files == m
    ensures r.moved ==> r.files == RenameFile(m, src, dst)
  {
    if src !in m then RenameOutcome(m, true, false)
    else if src != dst && refuses(src, dst) then RenameOutcome(m, false, false)
    else RenameOutcome(RenameFile(m, src, dst), true, true)
  }

  /** Renaming a file onto itself changes nothing. */
  lemma RenameToSelf(m: Files, id: nat, refuses: RenameRefusal)
    ensures Rename(m, id, id, refuses).files == m
    ensures Rename(m, id, id, refuses).ok
  {
    if id in m {
      assert RenameFile(m, id, id) == m;
    }
  }

  /**
   * A rename onto an id that is already taken destroys the body stored
   * there: the directory ends up with one operation fewer.
   */
  lemma RenameOverwrites(m: Files, src: nat, dst: nat, refuses: RenameRefusal)
    requires src in m && dst in m && src != dst
    requires !refuses(src, dst)
    ensures |Rename(m, src, dst, refuses).files| == |m| - 1
    ensures Rename(m, src, dst, refuses).files[dst] == m[src]
  {
    assert m.Keys - {src} + {dst} == m.Keys - {src};
  }

  /** A rename onto a free id keeps every body, and only the moved one changes its id. */
  lemma RenameToFreeId(m: Files, src: nat, dst: nat, refuses: RenameRefusal)
    requires src in m && dst !in m
    requires !refuses(src, dst)
    ensures |Rename(m, src, dst, refuses).files| == |m|
    ensures Rename(m, src, dst, refuses).files[dst] == m[src]
    ensures forall j | j in m && j != src :: Rename(m, src, dst, refuses).files[j] == m[j]
  {
  }

  // ---------------------------------------------------------------------------
  // insert_operation
  // ---------------------------------------------------------------------------

  /** Rust's `iter().position(|&x| x == id)`. */
  function Position(s: seq<nat>, x: nat): (r: Option<nat>)
    ensures r.Some? ==> r.value < |s| && s[r.value] == x && x !in s[..r.value]
    ensures r.None? <==> x !in s
    decreases |s|
  {
    if s == [] then None
    else if s[0] == x then Some(0)
    else
      match Position(s[1..], x)
      case None => None
      case Some(i) =>
        assert s[..i + 1] == [s[0]] + s[1..][..i];
        Some(i + 1)
  }

  /**
   * Every id from `t` upwards moved up by one: the directory an insertion
   * at `t` is meant to leave.
   */
  function Shift(m: Files, t: nat): Files {
    var below := set j | j in m && j < t;
    var above := set j | j in m && j >= t :: j + 1;
    map j | j in below + above :: if j < t then m[j] else m[j - 1]
  }

  /**
   * After the shift, ids below `t` hold what they held, `t` is free, and
   * every id above `t` holds what the id below it held.
   */
  lemma ShiftSpec(m: Files, t: nat)
    ensures forall j | j < t :: (j in Shift(m, t) <==> j in m) && (j in m ==> Shift(m, t)[j] == m[j])
    ensures t !in Shift(m, t)
    ensures forall j | j > t :: (j in Shift(m, t) <==> j - 1 in m) && (j - 1 in m ==> Shift(m, t)[j] == m[j - 1])
  {
    var s := Shift(m, t);
    forall j | j > t ensures (j in s <==> j - 1 in m) && (j - 1 in m ==> s[j] == m[j - 1]) {
      if j - 1 in m {
        assert j in set i | i in m && i >= t :: i + 1;
      }
    }
  }

  /** A threshold above every id shifts nothing. */
  lemma ShiftAboveAll(m: Files, t: nat)
    requires forall j | j in m :: j < t
    ensures Shift(m, t) == m
  {
  }

  /**
   * The renames `insert_operation` performs for the listed ids, the last
   * one first: each id is renamed to its successor twice through one handle
   * (the second call renames the moved file onto itself), and the loop stops
   * when the second call reports a failure.
   */
  datatype Shifted = Shifted(files: Files, ok: bool)

  function InsertSteps(m: Files, ids: seq<nat>, refuses: RenameRefusal): Shifted
    decreases |ids|
  {
    if ids == [] then Shifted(m, true)
    else
      var prev := InsertSteps(m, ids[1..], refuses);
      if !prev.ok then prev else RenameUpTwice(prev.files, ids[0], refuses)
  }

  /**
   * The two `rename_opt_content(id + 1)` calls on one handle at `id`: the
   * second renames the moved file onto itself, or retries the refused move.
   */
  function RenameUpTwice(m: Files, id: nat, refuses: RenameRefusal): (r: Shifted)
    ensures id in m && !refuses(id, id + 1) ==> r.files == RenameFile(m, id, id + 1) && r.ok
    ensures id in m && refuses(id, id + 1) ==> r == Shifted(m, false)
    ensures id !in m ==> r == Shifted(m, true)
  {
    var first := Rename(m, id, id + 1, refuses);
    var handle := if first.moved then id + 1 else id;
    var second := Rename(first.files, handle, id + 1, refuses);
    RenameToSelf(first.files, id + 1, refuses);
    Shifted(second.files, second.ok)
  }

  /** The directory after the renames for `ids[k..]`, when they all went through. */
  function ShiftFrom(m: Files, ids: seq<nat>, k: nat): Files
    requires k <= |ids|
  {
    if k == |ids| then m else Shift(m, ids[k])
  }

  /** `ids` lists the ids of `m`, ascending, each once (what `get_ids` returns). */
  ghost predicate ListsIds(ids: seq<nat>, m: Files) {
    StrictlySorted(ids) && forall id :: id in ids <==> id in m
  }

  /**
   * Moving the file at `i` to `i + 1`, in a directory already shifted from
   * the next id `u` upwards, extends the shift down to `i`.
   */
  lemma ShiftDown(m: Files, i: nat, u: nat)
    requires i in m && i < u
    requires forall j | i < j < u :: j !in m
    ensures i in Shift(m, u) && i + 1 !in Shift(m, u)
    ensures RenameFile(Shift(m, u), i, i + 1) == Shift(m, i)
  {
    ShiftDownKeys(m, i, u);
    ShiftDownValues(m, i, u);
    SameMap(RenameFile(Shift(m, u), i, i + 1), Shift(m, i));
  }

  lemma ShiftDownKeys(m: Files, i: nat, u: nat)
    requires i in m && i < u
    requires forall j | i < j < u :: j !in m
    ensures i in Shift(m, u) && i + 1 !in Shift(m, u)
    ensures forall j :: j in RenameFile(Shift(m, u), i, i + 1) <==> j in Shift(m, i)
  {
    ShiftSpec(m, u);
    ShiftSpec(m, i);
  }

  lemma ShiftDownValues(m: Files, i: nat, u: nat)
    requires i in m && i < u
    requires forall j | i < j < u :: j !in m
    ensures i in Shift(m, u)
    ensures forall j | j in RenameFile(Shift(m, u), i, i + 1) && j in Shift(m, i) ::
      RenameFile(Shift(m, u), i, i + 1)[j] == Shift(m, i)[j]
  {
    ShiftSpec(m, u);
    ShiftSpec(m, i);
  }

  /** Two maps with the same keys and the same value at each key are equal. */
  lemma SameMap(a: Files, b: Files)
    requires forall j :: j in a <==> j in b
    requires forall j | j in a && j in b :: a[j] == b[j]
    ensures a == b
  {
    assert a.Keys == b.Keys;
  }

  /** The next listed id above `ids[k]`, or one past it for the last. */
  function NextId(ids: seq<nat>, k: nat): nat
    requires k < |ids|
  {
    if k + 1 == |ids| then ids[k] + 1 else ids[k + 1]
  }

  /** No id of the directory lies strictly between two neighbours of the sorted id list. */
  lemma NoIdBetween(m: Files, ids: seq<nat>, k: nat)
    requires ListsIds(ids, m)
    requires k < |ids|
    ensures ids[k] in m && ids[k] < NextId(ids, k)
    ensures forall j | ids[k] < j < NextId(ids, k) :: j !in m
    ensures ShiftFrom(m, ids, k + 1) == Shift(m, NextId(ids, k))
  {
    if k + 1 < |ids| {
      forall j | ids[k] < j < ids[k + 1] ensures j !in m {
        forall q | 0 <= q < |ids| ensures ids[q] != j {
          if q > k { assert ids[k + 1] <= ids[q]; }
        }
      }
    }
    if k + 1 == |ids| {
      forall j | j in m ensures j < NextId(ids, k) {
        var q :| 0 <= q < |ids| && ids[q] == j;
        if q < k { assert ids[q] < ids[k]; }
      }
      ShiftAboveAll(m, NextId(ids, k));
    }
  }

  /** One more accepted step of the insertion loop moves the threshold down to `ids[k]`. */
  lemma ShiftStep(m: Files, ids: seq<nat>, k: nat)
    requires ListsIds(ids, m)
    requires k < |ids|
    ensures ids[k] in ShiftFrom(m, ids, k + 1)
    ensures ids[k] + 1 !in ShiftFrom(m, ids, k + 1)
    ensures RenameFile(ShiftFrom(m, ids, k + 1), ids[k], ids[k] + 1) == Shift(m, ids[k])
  {
    NoIdBetween(m, ids, k);
    ShiftDown(m, ids[k], NextId(ids, k));
  }

  /**
   * With every rename accepted, the insertion loop over `ids[k..]` leaves
   * every id from `ids[k]` upwards shifted by one and reports success.
   */
  lemma {:induction false} InsertStepsShift(m: Files, ids: seq<nat>, k: nat, refuses: RenameRefusal)
    requires ListsIds(ids, m)
    requires k <= |ids|
    requires NeverRefuses(refuses)
    ensures InsertSteps(m, ids[k..], refuses) == Shifted(ShiftFrom(m, ids, k), true)
    decreases |ids| - k
  {
    if k < |ids| {
      InsertStepsShift(m, ids, k + 1, refuses);
      assert !refuses(ids[k], ids[k] + 1);
      InsertStepAccepted(m, ids, k, refuses);
      assert !refuses(ids[k] + 1, ids[k] + 1);
    }
  }

  /**
   * Whatever the file system refuses, the insertion loop leaves the ids from
   * some listed id upwards shifted by one and nothing else changed, so no
   * body is lost or duplicated; it reports success only when all of
   * `ids[k..]` moved.
   */
  lemma {:induction false} InsertStepsPartial(m: Files, ids: seq<nat>, k: nat, refuses: RenameRefusal)
    requires ListsIds(ids, m)
    requires k <= |ids|
    ensures exists j :: k <= j <= |ids| && InsertSteps(m, ids[k..], refuses).files == ShiftFrom(m, ids, j)
    ensures InsertSteps(m, ids[k..], refuses).ok ==> InsertSteps(m, ids[k..], refuses).files == ShiftFrom(m, ids, k)
    decreases |ids| - k
  {
    var r := InsertSteps(m, ids[k..], refuses);
    if k == |ids| {
      assert r.files == ShiftFrom(m, ids, k);
    } else {
      InsertStepsPartial(m, ids, k + 1, refuses);
      var prev := InsertSteps(m, ids[k + 1..], refuses);
      if prev.ok {
        InsertStepAfterShift(m, ids, k, refuses);
        if r.files == ShiftFrom(m, ids, k) {
          assert k <= k <= |ids|;
        } else {
          assert k <= k + 1 <= |ids|;
        }
      } else {
        assert ids[k..][1..] == ids[k + 1..];
        var j :| k + 1 <= j <= |ids| && prev.files == ShiftFrom(m, ids, j);
        assert r.files == ShiftFrom(m, ids, j);
      }
    }
  }

  /**
   * The two renames of `ids[k]`, once the ids above it have all moved: either
   * the shift reaches `ids[k]`, or the first rename was refused, nothing
   * moved, and the loop reports failure.
   */
  lemma InsertStepAfterShift(m: Files, ids: seq<nat>, k: nat, refuses: RenameRefusal)
    requires ListsIds(ids, m)
    requires k < |ids|
    requires InsertSteps(m, ids[k + 1..], refuses) == Shifted(ShiftFrom(m, ids, k + 1), true)
    ensures var r := InsertSteps(m, ids[k..], refuses);
      r.files == ShiftFrom(m, ids, k) || (r.files == ShiftFrom(m, ids, k + 1) && !r.ok)
  {
    if refuses(ids[k], ids[k] + 1) {
      ShiftStep(m, ids, k);
      InsertStepRefused(m, ids, k, ShiftFrom(m, ids, k + 1), refuses);
    } else {
      InsertStepAccepted(m, ids, k, refuses);
    }
  }

  /** A refused first rename of `ids[k]` moves nothing and stops the loop. */
  lemma InsertStepRefused(m: Files, ids: seq<nat>, k: nat, before: Files, refuses: RenameRefusal)
    requires k < |ids|
    requires InsertSteps(m, ids[k + 1..], refuses) == Shifted(before, true)
    requires ids[k] in before && refuses(ids[k], ids[k] + 1)
    ensures InsertSteps(m, ids[k..], refuses) == Shifted(before, false)
  {
    InsertStep(m, ids, k, k + 1, before, refuses);
  }

  /** An accepted first rename of `ids[k]`, after the ids above it moved, extends the shift to `ids[k]`. */
  lemma InsertStepAccepted(m: Files, ids: seq<nat>, k: nat, refuses: RenameRefusal)
    requires ListsIds(ids, m)
    requires k < |ids|
    requires InsertSteps(m, ids[k + 1..], refuses) == Shifted(ShiftFrom(m, ids, k + 1), true)
    requires !refuses(ids[k], ids[k] + 1)
    ensures InsertSteps(m, ids[k..], refuses).files == ShiftFrom(m, ids, k)
    ensures InsertSteps(m, ids[k..], refuses).ok
  {
    ShiftStep(m, ids, k);
    InsertStepMoves(m, ids, k, ShiftFrom(m, ids, k + 1), Shift(m, ids[k]), refuses);
  }

  /** An accepted first rename of `ids[k]` leaves what the move made of the directory. */
  lemma InsertStepMoves(m: Files, ids: seq<nat>, k: nat, before: Files, after: Files, refuses: RenameRefusal)
    requires k < |ids|
    requires InsertSteps(m, ids[k + 1..], refuses) == Shifted(before, true)
    requires ids[k] in before && !refuses(ids[k], ids[k] + 1)
    requires RenameFile(before, ids[k], ids[k] + 1) == after
    ensures InsertSteps(m, ids[k..], refuses).files == after
    ensures InsertSteps(m, ids[k..], refuses).ok
  {
    InsertStep(m, ids, k, k + 1, before, refuses);
  }

  /** One more id of the insertion loop: the two renames of `ids[k]`, after those of `ids[j..]`. */
  lemma InsertStep(m: Files, ids: seq<nat>, k: nat, j: nat, before: Files, refuses: RenameRefusal)
    requires j == k + 1 <= |ids|
    requires InsertSteps(m, ids[j..], refuses) == Shifted(before, true)
    ensures InsertSteps(m, ids[k..], refuses) == RenameUpTwice(before, ids[k], refuses)
  {
    assert ids[k..][1..] == ids[j..];
  }

  /** `insert_operation`'s outcome, unfolded for the listed ids. */
  lemma InsertOutcomeUnfold(m: Files, id: nat, ids: seq<nat>, refuses: RenameRefusal)
    requires ids == SortedKeys(m.Keys)
    ensures Position(ids, id).None? ==> InsertOutcome(m, id, refuses) == Shifted(m, true)
    ensures Position(ids, id).Some? ==> InsertOutcome(m, id, refuses) == InsertSteps(m, ids[Position(ids, id).value..], refuses)
  {
  }

  /** Once a rename has failed, the renames of lower ids are never attempted. */
  lemma {:induction false} InsertStepsHalted(m: Files, ids: seq<nat>, j: nat, k: nat, refuses: RenameRefusal)
    requires j <= k <= |ids|
    requires !InsertSteps(m, ids[k..], refuses).ok
    ensures InsertSteps(m, ids[j..], refuses) == InsertSteps(m, ids[k..], refuses)
    decreases k - j
  {
    if j < k {
      InsertStepsHalted(m, ids, j + 1, k, refuses);
      assert ids[j..][1..] == ids[j + 1..];
    }
  }

  /** The directory `insert_operation(id)` leaves behind and whether it returns a handle. */
  ghost function InsertOutcome(m: Files, id: nat, refuses: RenameRefusal): Shifted {
    var ids := SortedKeys(m.Keys);
    match Position(ids, id)
    case None => Shifted(m, true)
    case Some(i) => InsertSteps(m, ids[i..], refuses)
  }

  /** Inserting at a free id renames nothing and hands out that id. */
  lemma InsertAtFreeId(m: Files, id: nat, refuses: RenameRefusal)
    requires id !in m
    ensures InsertOutcome(m, id, refuses) == Shifted(m, true)
  {
  }

  /**
   * Inserting at a taken id, with every rename accepted, moves that id and
   * every id above it up by one, and leaves the ids below it alone.
   */
  lemma InsertAtTakenId(m: Files, id: nat, refuses: RenameRefusal)
    requires id in m
    requires NeverRefuses(refuses)
    ensures InsertOutcome(m, id, refuses) == Shifted(Shift(m, id), true)
  {
    var ids := SortedKeys(m.Keys);
    var i := Position(ids, id).value;
    InsertStepsShift(m, ids, i, refuses);
  }

  /**
   * Whatever the file system refuses, an insertion shifts the ids from some
   * threshold at or above `id` up by one; when it reports success, the
   * threshold is `id` itself.
   */
  lemma InsertNeverLosesBodies(m: Files, id: nat, refuses: RenameRefusal)
    ensures exists t :: t >= id && InsertOutcome(m, id, refuses).files == Shift(m, t)
    ensures InsertOutcome(m, id, refuses).ok && id in m ==> InsertOutcome(m, id, refuses).files == Shift(m, id)
  {
    var ids := SortedKeys(m.Keys);
    InsertOutcomeUnfold(m, id, ids, refuses);
    var pos := Position(ids, id);
    if pos.None? {
      ShiftFromIsShift(m, ids, |ids|, id);
    } else {
      InsertFromPosition(m, ids, pos.value, id, refuses);
    }
  }

  /** The insertion loop started at the position of `id` shifts from a threshold at or above `id`. */
  lemma InsertFromPosition(m: Files, ids: seq<nat>, i: nat, id: nat, refuses: RenameRefusal)
    requires ListsIds(ids, m)
    requires i < |ids| && ids[i] == id
    ensures exists t :: t >= id && InsertSteps(m, ids[i..], refuses).files == Shift(m, t)
    ensures InsertSteps(m, ids[i..], refuses).ok ==> InsertSteps(m, ids[i..], refuses).files == Shift(m, id)
  {
    InsertStepsPartial(m, ids, i, refuses);
    var r := InsertSteps(m, ids[i..], refuses);
    var j :| i <= j <= |ids| && r.files == ShiftFrom(m, ids, j);
    assert j < |ids| ==> ids[i] <= ids[j];
    ShiftFromIsShift(m, ids, j, id);
  }

  /** A partial shift is a shift from a threshold no lower than any id at or before its start. */
  lemma ShiftFromIsShift(m: Files, ids: seq<nat>, j: nat, lo: nat)
    requires ListsIds(ids, m)
    requires j <= |ids|
    requires j < |ids| ==> lo <= ids[j]
    ensures exists t :: t >= lo && ShiftFrom(m, ids, j) == Shift(m, t)
  {
    if j == |ids| {
      var t := lo + 1 + Max(m.Keys);
      ShiftAboveAll(m, t);
      assert ShiftFrom(m, ids, j) == Shift(m, t);
    } else {
      assert ShiftFrom(m, ids, j) == Shift(m, ids[j]);
    }
  }

  /**
   * `add_operation` inserts at the current count: on ids 0..n-1 that id is
   * free and nothing is renamed.
   */
  lemma AddOnZeroBasedIds(m: Files, refuses: RenameRefusal)
    requires forall j: nat :: j in m <==> j < |m|
    ensures InsertOutcome(m, |m|, refuses) == Shifted(m, true)
  {
    InsertAtFreeId(m, |m|, refuses);
  }

  /**
   * On ids 1..n the count is the last id, so `add_operation` moves the last
   * operation up to n + 1 and hands out n: the new operation lands before
   * the last one rather than after it.
   */
  lemma AddOnOneBasedIds(m: Files, refuses: RenameRefusal)
    requires |m| > 0
    requires forall j: nat :: j in m <==> 1 <= j <= |m|
    requires NeverRefuses(refuses)
    ensures InsertOutcome(m, |m|, refuses) == Shifted(Shift(m, |m|), true)
    ensures |m| !in Shift(m, |m|) && Shift(m, |m|)[|m| + 1] == m[|m|]
  {
    InsertAtTakenId(m, |m|, refuses);
    ShiftSpec(m, |m|);
  }

  /** An upper bound on a finite set of ids. */
  ghost function Max(s: set<nat>): (b: nat)
    ensures forall j | j in s :: j <= b
    decreases |s|
  {
    if s == {} then 0
    else
      var x :| x in s;
      var b := Max(s - {x});
      assert forall y | y in s :: y == x || y in s - {x};
      if x <= b then b else x
  }

  /** The test of `insert_operation`: ids [1, 2, 3], inserting at 2, leaves ids [1, 3, 4] with the bodies carried along. */
  lemma InsertExample(a: string, b: string, c: string, refuses: RenameRefusal)
    requires NeverRefuses(refuses)
    ensures InsertOutcome(map[1 := a, 2 := b, 3 := c], 2, refuses) == Shifted(map[1 := a, 3 := b, 4 := c], true)
  {
    InsertAtTakenId(map[1 := a, 2 := b, 3 := c], 2, refuses);
    ShiftExample(a, b, c);
  }

  /**
   * A file system that refuses every rename of a file onto itself still
   * lets the insertion succeed: the second rename of each step targets the
   * file's own id, which always succeeds.
   */
  lemma InsertDespiteRefusedSelfRenames(b: string)
    ensures InsertOutcome(map[2 := b], 2, (src: nat, dst: nat) => src == dst) == Shifted(map[3 := b], true)
  {
    var m := map[2 := b];
    assert m.Keys == {2};
    SortedKeysUnique([2], m.Keys);
    assert [2][0..] == [2] && [2][1..] == [];
  }

  lemma ShiftExample(a: string, b: string, c: string)
    ensures Shift(map[1 := a, 2 := b, 3 := c], 2) == map[1 := a, 3 := b, 4 := c]
  {
    var m := map[1 := a, 2 := b, 3 := c];
    var want := map[1 := a, 3 := b, 4 := c];
    ShiftSpec(m, 2);
    var s := Shift(m, 2);
    forall j: nat ensures j in s <==> j in want {
      if j > 2 { assert j - 1 in m <==> j in want; }
    }
    assert s[1] == a && s[3] == b && s[4] == c;
    SameMap(s, want);
  }

  // ---------------------------------------------------------------------------
  // resort_operations
  // ---------------------------------------------------------------------------

  /** `windows(2).all(|w| w[1] - w[0] == 1)`: each id is one more than the one before. */
  predicate Consecutive(ids: seq<nat>) {
    forall k | 0 < k < |ids| :: OneMore(ids, k)
  }

  /** The window ending at position `k`: its id is one more than the one before. */
  predicate OneMore(ids: seq<nat>, k: nat)
    requires 0 < k < |ids|
  {
    ids[k] == ids[k - 1] + 1
  }

  /** The positions of a list of length `n`, highest first: the order `iter().rev()` visits them. */
  function Descending(n: nat): (order: seq<nat>)
    ensures |order| == n
    ensures forall i | 0 <= i < n :: order[i] == n - 1 - i
  {
    seq(n, i requires 0 <= i < n => n - 1 - i)
  }

  /**
   * For each position `k` of `order` in turn, renames `ids[k]` to `k + 1`
   * and carries on whatever the rename reports (a position past the end
   * of `ids` renames nothing).
   */
  function Renumber(m: Files, ids: seq<nat>, order: seq<nat>, refuses: RenameRefusal): Files
    decreases |order|
  {
    if order == [] then m
    else
      var k := order[|order| - 1];
      var prev := Renumber(m, ids, order[..|order| - 1], refuses);
      if k < |ids| then Rename(prev, ids[k], k + 1, refuses).files else prev
  }

  /**
   * One more rename along `order`: renaming the id at position `order[i]`
   * to `order[i] + 1` in the directory reached after `i` renames gives the
   * directory reached after `j = i + 1`.
   */
  lemma RenumberStep(m: Files, ids: seq<nat>, order: seq<nat>, i: nat, j: nat, src: nat, dst: nat,
                     before: Files, after: Files, refuses: RenameRefusal)
    requires j == i + 1 <= |order| && order[i] < |ids|
    requires src == ids[order[i]] && dst == order[i] + 1
    requires before == Renumber(m, ids, order[..i], refuses)
    requires after == Rename(before, src, dst, refuses).files
    ensures after == Renumber(m, ids, order[..j], refuses)
  {
    assert order[..j][..i] == order[..i];
  }

  /**
   * `resort_operations` as written: nothing happens when the ids are
   * consecutive; otherwise the k-th smallest id (from 0) is renamed to
   * k + 1, largest first.
   */
  ghost function ResortAsWritten(m: Files, refuses: RenameRefusal): Files {
    var ids := SortedKeys(m.Keys);
    if Consecutive(ids) then m else Renumber(m, ids, Descending(|ids|), refuses)
  }

  /** The as-written resort, unfolded for the listed ids. */
  lemma ResortAsWrittenUnfold(m: Files, ids: seq<nat>, refuses: RenameRefusal)
    requires ids == SortedKeys(m.Keys)
    ensures Consecutive(ids) ==> ResortAsWritten(m, refuses) == m
    ensures !Consecutive(ids) ==> ResortAsWritten(m, refuses) == Renumber(m, ids, Descending(|ids|), refuses)
  {
  }

  /** Number of leading positions `k` whose id is `k` itself. */
  function FixedPrefix(ids: seq<nat>): (p: nat)
    ensures p <= |ids|
    ensures forall k | 0 <= k < p :: ids[k] == k
    ensures p < |ids| ==> ids[p] != p
  {
    FixedFrom(ids, 0)
  }

  function FixedFrom(ids: seq<nat>, k: nat): (p: nat)
    requires k <= |ids|
    requires forall j | 0 <= j < k :: ids[j] == j
    ensures k <= p <= |ids|
    ensures forall j | 0 <= j < p :: ids[j] == j
    ensures p < |ids| ==> ids[p] != p
    decreases |ids| - k
  {
    if k < |ids| && ids[k] == k then FixedFrom(ids, k + 1) else k
  }

  /**
   * The rename order that never overwrites: the positions whose id must
   * come down (from `p` on) lowest first, then those whose id must go up
   * (below `p`) highest first.
   */
  function SafeOrder(n: nat, p: nat): (order: seq<nat>)
    requires p <= n
    ensures |order| == n
    ensures forall i | 0 <= i < n - p :: order[i] == p + i
    ensures forall i | n - p <= i < n :: order[i] == n - 1 - i
  {
    seq(n - p, i requires 0 <= i < n - p => p + i) + seq(p, i requires 0 <= i < p => p - 1 - i)
  }

  /**
   * `resort_operations` with the rename order corrected: the same target
   * ids (the k-th smallest id becomes k + 1), visited in an order in which
   * no rename lands on a file that has not moved yet.
   */
  ghost function ResortSafely(m: Files, refuses: RenameRefusal): Files {
    var ids := SortedKeys(m.Keys);
    if Consecutive(ids) then m else Renumber(m, ids, SafeOrder(|ids|, FixedPrefix(ids)), refuses)
  }

  /** The corrected resort, unfolded for the listed ids. */
  lemma ResortSafelyUnfold(m: Files, ids: seq<nat>, refuses: RenameRefusal)
    requires ids == SortedKeys(m.Keys)
    ensures Consecutive(ids) ==> ResortSafely(m, refuses) == m
    ensures !Consecutive(ids) ==> ResortSafely(m, refuses) == Renumber(m, ids, SafeOrder(|ids|, FixedPrefix(ids)), refuses)
  {
  }

  /** Ids of a strictly ascending list grow at least as fast as their positions. */
  lemma {:induction false} Spread(ids: seq<nat>, i: nat, j: nat)
    requires StrictlySorted(ids)
    requires i <= j < |ids|
    ensures ids[j] >= ids[i] + (j - i)
    decreases j - i
  {
    if i < j {
      Spread(ids, i, j - 1);
    }
  }

  /** The positions below `p` hold their own index; every later id exceeds its position. */
  ghost predicate SplitAt(ids: seq<nat>, p: nat) {
    && p <= |ids|
    && StrictlySorted(ids)
    && (forall k | 0 <= k < p :: ids[k] == k)
    && (forall k | p <= k < |ids| :: ids[k] >= k + 1)
  }

  lemma FixedPrefixSplits(ids: seq<nat>)
    requires StrictlySorted(ids)
    ensures SplitAt(ids, FixedPrefix(ids))
  {
    var p := FixedPrefix(ids);
    forall k | p <= k < |ids| ensures ids[k] >= k + 1 {
      if p > 0 {
        Spread(ids, p - 1, p);
      }
      Spread(ids, p, k);
    }
  }

  /** Every id above `ids[k]` is at least the next listed id. */
  lemma AboveNext(m: Files, ids: seq<nat>, k: nat)
    requires ListsIds(ids, m)
    requires k < |ids|
    ensures forall j | j in m && j > ids[k] :: k + 1 < |ids| && j >= ids[k + 1]
  {
    forall j | j in m && j > ids[k] ensures k + 1 < |ids| && j >= ids[k + 1] {
      var q :| 0 <= q < |ids| && ids[q] == j;
    }
  }

  /**
   * First phase of the safe order: the positions `p..hi-1` have come down
   * to ids `p+1..hi`, holding the bodies of `ids[p..hi]`; the ids below `p`
   * and from `ids[hi]` on are untouched.
   */
  ghost predicate Lowered(f: Files, m: Files, ids: seq<nat>, p: nat, hi: nat)
    requires hi <= |ids|
  {
    && (forall j: nat :: j in f <==> (j in m && (j < p || (hi < |ids| && j >= ids[hi]))) || (p < j <= hi))
    && (forall j: nat | j in f ::
          if p < j <= hi then ids[j - 1] in m && f[j] == m[ids[j - 1]] else j in m && f[j] == m[j])
  }

  /**
   * Second phase: every position from `lo` on has its final id (position
   * `k` at `k + 1`), and the ids below `lo` are untouched.
   */
  ghost predicate Raised(f: Files, m: Files, ids: seq<nat>, lo: nat) {
    && (forall j: nat :: j in f <==> j < lo || lo < j <= |ids|)
    && (forall j: nat | j in f ::
          if j < lo then j in m && f[j] == m[j] else 0 < j <= |ids| && ids[j - 1] in m && f[j] == m[ids[j - 1]])
  }

  /** The first phase starts from the untouched directory. */
  lemma LoweredStart(m: Files, ids: seq<nat>, p: nat)
    requires ListsIds(ids, m)
    requires SplitAt(ids, p)
    ensures Lowered(m, m, ids, p, p)
  {
    forall j | j in m ensures j < p || (p < |ids| && j >= ids[p]) {
      var q :| 0 <= q < |ids| && ids[q] == j;
      if q > p { assert ids[p] < ids[q]; }
    }
  }

  /** In the first phase the next position comes down to its target, which is free unless it is its own id. */
  lemma LowerNext(f: Files, m: Files, ids: seq<nat>, p: nat, hi: nat, next: nat, refuses: RenameRefusal)
    requires ListsIds(ids, m)
    requires SplitAt(ids, p)
    requires p <= hi < |ids| && next == hi + 1
    requires Lowered(f, m, ids, p, hi)
    requires NeverRefuses(refuses)
    ensures Lowered(Rename(f, ids[hi], next, refuses).files, m, ids, p, next)
  {
    AboveNext(m, ids, hi);
    assert ids[hi] in f;
    assert !refuses(ids[hi], hi + 1);
    if ids[hi] == hi + 1 {
      RenameToSelf(f, hi + 1, refuses);
      LowerInPlace(f, m, ids, p, hi);
    } else {
      LowerMove(f, m, ids, p, hi);
    }
  }

  lemma LowerInPlace(f: Files, m: Files, ids: seq<nat>, p: nat, hi: nat)
    requires ListsIds(ids, m)
    requires SplitAt(ids, p)
    requires p <= hi < |ids| && ids[hi] == hi + 1
    requires Lowered(f, m, ids, p, hi)
    requires forall j | j in m && j > ids[hi] :: hi + 1 < |ids| && j >= ids[hi + 1]
    ensures Lowered(f, m, ids, p, hi + 1)
  {
    forall j: nat ensures j in f <==> (j in m && (j < p || (hi + 1 < |ids| && j >= ids[hi + 1]))) || (p < j <= hi + 1) {
      if hi + 1 < |ids| { assert ids[hi] < ids[hi + 1]; }
    }
  }

  lemma LowerMove(f: Files, m: Files, ids: seq<nat>, p: nat, hi: nat)
    requires ListsIds(ids, m)
    requires SplitAt(ids, p)
    requires p <= hi < |ids| && ids[hi] != hi + 1
    requires Lowered(f, m, ids, p, hi)
    requires forall j | j in m && j > ids[hi] :: hi + 1 < |ids| && j >= ids[hi + 1]
    ensures ids[hi] in f
    ensures Lowered(RenameFile(f, ids[hi], hi + 1), m, ids, p, hi + 1)
  {
    assert ids[hi] in f;
    var g := RenameFile(f, ids[hi], hi + 1);
    LowerMoveKeys(f, g, m, ids, p, hi);
    LowerMoveValues(f, g, m, ids, p, hi);
  }

  lemma LowerMoveKeys(f: Files, g: Files, m: Files, ids: seq<nat>, p: nat, hi: nat)
    requires ListsIds(ids, m)
    requires SplitAt(ids, p)
    requires p <= hi < |ids| && ids[hi] != hi + 1
    requires Lowered(f, m, ids, p, hi)
    requires forall j | j in m && j > ids[hi] :: hi + 1 < |ids| && j >= ids[hi + 1]
    requires ids[hi] in f && g == RenameFile(f, ids[hi], hi + 1)
    ensures forall j: nat :: j in g <==> (j in m && (j < p || (hi + 1 < |ids| && j >= ids[hi + 1]))) || (p < j <= hi + 1)
  {
    assert ids[hi] > hi + 1;
    forall j: nat ensures j in g <==> (j in m && (j < p || (hi + 1 < |ids| && j >= ids[hi + 1]))) || (p < j <= hi + 1) {
      if hi + 1 < |ids| { assert ids[hi] < ids[hi + 1]; }
    }
  }

  lemma LowerMoveValues(f: Files, g: Files, m: Files, ids: seq<nat>, p: nat, hi: nat)
    requires SplitAt(ids, p)
    requires p <= hi < |ids| && ids[hi] != hi + 1
    requires Lowered(f, m, ids, p, hi)
    requires ids[hi] in f && g == RenameFile(f, ids[hi], hi + 1)
    ensures forall j: nat | j in g ::
      if p < j <= hi + 1 then ids[j - 1] in m && g[j] == m[ids[j - 1]] else j in m && g[j] == m[j]
  {
    assert ids[hi] > hi + 1;
  }

  /** The end of the first phase is the start of the second. */
  lemma LoweredIsRaised(f: Files, m: Files, ids: seq<nat>, p: nat)
    requires ListsIds(ids, m)
    requires SplitAt(ids, p)
    requires Lowered(f, m, ids, p, |ids|)
    ensures Raised(f, m, ids, p)
  {
    forall j: nat | j < p ensures j in m {
      assert ids[j] == j;
    }
  }

  /** In the second phase the next position below `lo` goes up onto the id just vacated. */
  lemma RaiseNext(f: Files, m: Files, ids: seq<nat>, p: nat, lo: nat, refuses: RenameRefusal)
    requires ListsIds(ids, m)
    requires SplitAt(ids, p)
    requires 0 < lo <= p
    requires Raised(f, m, ids, lo)
    requires NeverRefuses(refuses)
    ensures Raised(Rename(f, ids[lo - 1], lo, refuses).files, m, ids, lo - 1)
  {
    assert ids[lo - 1] == lo - 1;
    assert !refuses(lo - 1, lo);
    var g := RenameFile(f, lo - 1, lo);
    RaiseKeys(f, g, m, ids, lo);
    RaiseValues(f, g, m, ids, lo);
  }

  lemma RaiseKeys(f: Files, g: Files, m: Files, ids: seq<nat>, lo: nat)
    requires 0 < lo <= |ids|
    requires Raised(f, m, ids, lo)
    requires lo - 1 in f && g == RenameFile(f, lo - 1, lo)
    ensures forall j: nat :: j in g <==> j < lo - 1 || lo - 1 < j <= |ids|
  {
  }

  lemma RaiseValues(f: Files, g: Files, m: Files, ids: seq<nat>, lo: nat)
    requires 0 < lo <= |ids| && ids[lo - 1] == lo - 1
    requires Raised(f, m, ids, lo)
    requires lo - 1 in f && g == RenameFile(f, lo - 1, lo)
    ensures forall j: nat | j in g ::
      if j < lo - 1 then j in m && g[j] == m[j] else 0 < j <= |ids| && ids[j - 1] in m && g[j] == m[ids[j - 1]]
  {
  }

  /** One rename of the second phase of the safe order: position `k` goes to `k + 1`. */
  lemma SafeStepDown(m: Files, ids: seq<nat>, p: nat, order: seq<nat>, done: nat, k: nat,
                     before: Files, after: Files, refuses: RenameRefusal)
    requires p <= |ids| == |order|
    requires forall i | |ids| - p <= i < |ids| :: order[i] == |ids| - 1 - i
    requires k < p && done == |ids| - 1 - k
    requires before == Renumber(m, ids, order[..done], refuses)
    requires after == Rename(before, ids[k], k + 1, refuses).files
    ensures after == Renumber(m, ids, order[..done + 1], refuses)
  {
    assert order[done] == k;
    RenumberStep(m, ids, order, done, done + 1, ids[k], k + 1, before, after, refuses);
  }

  /** After the first `i` renames of the safe order, positions `p..p+i-1` have come down. */
  lemma {:induction false} LowerStages(m: Files, ids: seq<nat>, p: nat, order: seq<nat>, i: nat, refuses: RenameRefusal)
    requires ListsIds(ids, m) && SplitAt(ids, p)
    requires order == SafeOrder(|ids|, p)
    requires NeverRefuses(refuses)
    requires i <= |ids| - p
    ensures Lowered(Renumber(m, ids, order[..i], refuses), m, ids, p, p + i)
    decreases i
  {
    if i == 0 {
      LowerStageNone(m, ids, p, order, i, refuses);
    } else {
      LowerStages(m, ids, p, order, i - 1, refuses);
      LowerStageNext(m, ids, p, order, i - 1, i, refuses);
    }
  }

  lemma LowerStageNone(m: Files, ids: seq<nat>, p: nat, order: seq<nat>, i: nat, refuses: RenameRefusal)
    requires ListsIds(ids, m) && SplitAt(ids, p)
    requires i == 0 && p <= |ids|
    ensures Lowered(Renumber(m, ids, order[..i], refuses), m, ids, p, p + i)
  {
    assert order[..i] == [];
    LoweredStart(m, ids, p);
    assert Renumber(m, ids, order[..i], refuses) == m;
  }

  lemma LowerStageNext(m: Files, ids: seq<nat>, p: nat, order: seq<nat>, h: nat, i: nat, refuses: RenameRefusal)
    requires ListsIds(ids, m) && SplitAt(ids, p)
    requires order == SafeOrder(|ids|, p)
    requires NeverRefuses(refuses)
    requires i == h + 1 <= |ids| - p
    requires Lowered(Renumber(m, ids, order[..h], refuses), m, ids, p, p + h)
    ensures Lowered(Renumber(m, ids, order[..i], refuses), m, ids, p, p + i)
  {
    var before := Renumber(m, ids, order[..h], refuses);
    var hi, next := p + h, p + i;
    assert order[h] == hi;
    LowerNext(before, m, ids, p, hi, next, refuses);
    var after := Rename(before, ids[hi], next, refuses).files;
    RenumberStep(m, ids, order, h, i, ids[hi], next, before, after, refuses);
  }

  /** After the first `i` renames of the safe order, every position from `|ids| - i` on is final. */
  lemma {:induction false} RaiseStages(m: Files, ids: seq<nat>, p: nat, order: seq<nat>, i: nat, refuses: RenameRefusal)
    requires ListsIds(ids, m) && SplitAt(ids, p)
    requires order == SafeOrder(|ids|, p)
    requires NeverRefuses(refuses)
    requires |ids| - p <= i <= |ids|
    ensures Raised(Renumber(m, ids, order[..i], refuses), m, ids, |ids| - i)
    decreases i
  {
    if i == |ids| - p {
      LowerStages(m, ids, p, order, i, refuses);
      LoweredIsRaised(Renumber(m, ids, order[..i], refuses), m, ids, p);
    } else {
      var h := i - 1;
      RaiseStages(m, ids, p, order, h, refuses);
      var before := Renumber(m, ids, order[..h], refuses);
      var lo := |ids| - h;
      assert order[h] == lo - 1;
      RaiseNext(before, m, ids, p, lo, refuses);
      RenumberStep(m, ids, order, h, i, ids[lo - 1], lo, before, Rename(before, ids[lo - 1], lo, refuses).files, refuses);
    }
  }

  /** After the whole safe order, position `k` sits at `k + 1` for every `k`. */
  lemma SafeRenumberEnd(m: Files, ids: seq<nat>, refuses: RenameRefusal)
    requires ListsIds(ids, m)
    requires NeverRefuses(refuses)
    ensures Raised(Renumber(m, ids, SafeOrder(|ids|, FixedPrefix(ids)), refuses), m, ids, 0)
  {
    var p := FixedPrefix(ids);
    var order := SafeOrder(|ids|, p);
    FixedPrefixSplits(ids);
    RaiseStages(m, ids, p, order, |ids|, refuses);
    assert order[..|ids|] == order;
  }

  /**
   * With every rename accepted, the corrected resort leaves consecutive ids
   * as they are, and otherwise gives the k-th smallest id's body the id
   * k + 1: ids 1..n, every body kept, in the same order.
   */
  lemma ResortSafelyRenumbers(m: Files, refuses: RenameRefusal)
    requires NeverRefuses(refuses)
    ensures var ids := SortedKeys(m.Keys);
      Consecutive(ids) ==> ResortSafely(m, refuses) == m
    ensures var ids := SortedKeys(m.Keys);
      !Consecutive(ids) ==>
        && (forall j :: j in ResortSafely(m, refuses) <==> 1 <= j <= |ids|)
        && (forall k | 0 <= k < |ids| :: ResortSafely(m, refuses)[k + 1] == m[ids[k]])
  {
    var ids := SortedKeys(m.Keys);
    ResortSafelyUnfold(m, ids, refuses);
    if !Consecutive(ids) {
      SafeRenumberFinal(m, ids, refuses);
    }
  }

  /** The safe order, with every rename accepted, gives position `k` the id `k + 1` and leaves no other id. */
  lemma SafeRenumberFinal(m: Files, ids: seq<nat>, refuses: RenameRefusal)
    requires ListsIds(ids, m)
    requires NeverRefuses(refuses)
    ensures var r := Renumber(m, ids, SafeOrder(|ids|, FixedPrefix(ids)), refuses);
      && (forall j :: j in r <==> 1 <= j <= |ids|)
      && (forall k | 0 <= k < |ids| :: r[k + 1] == m[ids[k]])
  {
    var r := Renumber(m, ids, SafeOrder(|ids|, FixedPrefix(ids)), refuses);
    SafeRenumberEnd(m, ids, refuses);
    forall k | 0 <= k < |ids| ensures r[k + 1] == m[ids[k]] {
      assert k + 1 in r;
    }
  }

  /** The ids 1..n, ascending. */
  function FromOne(n: nat): (ids: seq<nat>)
    ensures |ids| == n && forall k | 0 <= k < n :: ids[k] == k + 1
  {
    seq(n, k requires 0 <= k < n => k + 1)
  }

  /** A directory whose ids are exactly 1..n lists them in order and holds n operations. */
  lemma NumberedFromOne(r: Files, n: nat)
    requires forall j: nat :: j in r <==> 1 <= j <= n
    ensures SortedKeys(r.Keys) == FromOne(n)
    ensures |r| == n
    ensures Consecutive(FromOne(n))
  {
    var ids := FromOne(n);
    forall j ensures j in ids <==> j in r.Keys {
      if 1 <= j <= n {
        assert ids[j - 1] == j;
      }
    }
    SortedKeysUnique(ids, r.Keys);
  }

  /** With every rename accepted, resorting twice is resorting once. */
  lemma ResortSafelyIdempotent(m: Files, refuses: RenameRefusal)
    requires NeverRefuses(refuses)
    ensures ResortSafely(ResortSafely(m, refuses), refuses) == ResortSafely(m, refuses)
  {
    var ids := SortedKeys(m.Keys);
    var r := ResortSafely(m, refuses);
    ResortSafelyRenumbers(m, refuses);
    if !Consecutive(ids) {
      NumberedFromOne(r, |ids|);
      ResortSafelyUnfold(r, FromOne(|ids|), refuses);
    }
  }

  // ---------------------------------------------------------------------------
  // What the resort as written does on every input
  // ---------------------------------------------------------------------------

  /**
   * No rename of the largest-first order lands on an id that has not moved
   * yet. The rename at position `k` targets `k + 1`, and the positions
   * after `j` target `j + 2..n`, so the id at `j` must lie outside that
   * range: at most one above its position, or beyond `n`.
   */
  predicate NoCollision(ids: seq<nat>) {
    forall j | 0 <= j < |ids| :: ids[j] <= j + 1 || ids[j] > |ids|
  }

  /**
   * The largest-first order after visiting positions `lo..n-1`: the ids at
   * the positions below `lo` are untouched, and the ids `lo+1..n` hold the
   * bodies of positions `lo..n-1`.
   */
  ghost predicate Descended(f: Files, m: Files, ids: seq<nat>, lo: nat)
    requires lo <= |ids|
  {
    && (forall j: nat :: j in f <==> (j in m && (lo == |ids| || j < ids[lo])) || lo < j <= |ids|)
    && (forall j: nat | j in f ::
          if lo < j <= |ids| then ids[j - 1] in m && f[j] == m[ids[j - 1]] else j in m && f[j] == m[j])
  }

  /** Without a collision, the next position down goes to its target, which is free unless it is its own id. */
  lemma DescendNext(f: Files, m: Files, ids: seq<nat>, lo: nat, refuses: RenameRefusal)
    requires ListsIds(ids, m) && NoCollision(ids)
    requires 0 < lo <= |ids| && Descended(f, m, ids, lo)
    requires NeverRefuses(refuses)
    ensures Descended(Rename(f, ids[lo - 1], lo, refuses).files, m, ids, lo - 1)
  {
    var k := lo - 1;
    AboveNext(m, ids, k);
    assert lo < |ids| ==> ids[k] < ids[lo];
    assert ids[k] in m;
    assert !refuses(ids[k], lo);
    if ids[k] == lo {
      RenameToSelf(f, lo, refuses);
      DescendInPlace(f, m, ids, lo);
    } else {
      Spread(ids, 0, k);
      DescendMove(f, m, ids, lo);
    }
  }

  lemma DescendInPlace(f: Files, m: Files, ids: seq<nat>, lo: nat)
    requires 0 < lo <= |ids| && ids[lo - 1] == lo && ids[lo - 1] in m
    requires lo < |ids| ==> ids[lo - 1] < ids[lo]
    requires Descended(f, m, ids, lo)
    requires forall j | j in m && j > ids[lo - 1] :: lo < |ids| && j >= ids[lo]
    ensures Descended(f, m, ids, lo - 1)
  {
  }

  lemma DescendMove(f: Files, m: Files, ids: seq<nat>, lo: nat)
    requires 0 < lo <= |ids| && ids[lo - 1] in m
    requires ids[lo - 1] == lo - 1 || ids[lo - 1] > |ids|
    requires lo < |ids| ==> ids[lo - 1] < ids[lo]
    requires Descended(f, m, ids, lo)
    requires forall j | j in m && j > ids[lo - 1] :: lo < |ids| && j >= ids[lo]
    ensures ids[lo - 1] in f
    ensures Descended(RenameFile(f, ids[lo - 1], lo), m, ids, lo - 1)
  {
    var g := RenameFile(f, ids[lo - 1], lo);
    DescendMoveKeys(f, g, m, ids, lo);
    DescendMoveValues(f, g, m, ids, lo);
  }

  lemma DescendMoveKeys(f: Files, g: Files, m: Files, ids: seq<nat>, lo: nat)
    requires 0 < lo <= |ids| && ids[lo - 1] in m
    requires ids[lo - 1] == lo - 1 || ids[lo - 1] > |ids|
    requires lo < |ids| ==> ids[lo - 1] < ids[lo]
    requires forall j: nat :: j in f <==> (j in m && (lo == |ids| || j < ids[lo])) || lo < j <= |ids|
    requires forall j | j in m && j > ids[lo - 1] :: lo < |ids| && j >= ids[lo]
    requires ids[lo - 1] in f && g == RenameFile(f, ids[lo - 1], lo)
    ensures forall j: nat :: j in g <==> (j in m && j < ids[lo - 1]) || lo - 1 < j <= |ids|
  {
  }

  lemma DescendMoveValues(f: Files, g: Files, m: Files, ids: seq<nat>, lo: nat)
    requires 0 < lo <= |ids|
    requires ids[lo - 1] == lo - 1 || ids[lo - 1] > |ids|
    requires forall j: nat | j in f ::
      if lo < j <= |ids| then ids[j - 1] in m && f[j] == m[ids[j - 1]] else j in m && f[j] == m[j]
    requires ids[lo - 1] in f && g == RenameFile(f, ids[lo - 1], lo)
    ensures forall j: nat | j in g ::
      if lo - 1 < j <= |ids| then ids[j - 1] in m && g[j] == m[ids[j - 1]] else j in m && g[j] == m[j]
  {
  }

  /** The directory that `Descended` describes: untouched ids below position `lo`, final ids from `lo + 1` on. */
  ghost function DescendedMap(m: Files, ids: seq<nat>, lo: nat): Files
    requires ListsIds(ids, m) && lo <= |ids|
  {
    (map j | j in m && (lo == |ids| || j < ids[lo]) :: m[j])
      + (map j: nat | lo < j <= |ids| :: FinalBody(m, ids, j))
  }

  /** The body that ends up at id `j`: the one of the `j`-th smallest id. */
  ghost function FinalBody(m: Files, ids: seq<nat>, j: nat): string
    requires ListsIds(ids, m) && 0 < j <= |ids|
  {
    m[ids[j - 1]]
  }

  lemma DescendedMapParts(m: Files, ids: seq<nat>, lo: nat)
    requires ListsIds(ids, m) && lo <= |ids|
    ensures Descended(DescendedMap(m, ids, lo), m, ids, lo)
  {
  }

  lemma PartsGiveMap(f: Files, m: Files, ids: seq<nat>, lo: nat)
    requires ListsIds(ids, m) && lo <= |ids|
    requires Descended(f, m, ids, lo)
    ensures f == DescendedMap(m, ids, lo)
  {
    DescendedMapParts(m, ids, lo);
    SameMap(f, DescendedMap(m, ids, lo));
  }

  /** Without a collision, one more rename of the largest-first order makes one more position final. */
  lemma DescendMapStep(m: Files, ids: seq<nat>, lo: nat, refuses: RenameRefusal)
    requires ListsIds(ids, m) && NoCollision(ids)
    requires 0 < lo <= |ids|
    requires NeverRefuses(refuses)
    ensures Rename(DescendedMap(m, ids, lo), ids[lo - 1], lo, refuses).files == DescendedMap(m, ids, lo - 1)
  {
    DescendedMapParts(m, ids, lo);
    DescendNextMap(DescendedMap(m, ids, lo), m, ids, lo, refuses);
  }

  lemma DescendNextMap(f: Files, m: Files, ids: seq<nat>, lo: nat, refuses: RenameRefusal)
    requires ListsIds(ids, m) && NoCollision(ids)
    requires 0 < lo <= |ids| && Descended(f, m, ids, lo)
    requires NeverRefuses(refuses)
    ensures Rename(f, ids[lo - 1], lo, refuses).files == DescendedMap(m, ids, lo - 1)
  {
    DescendNext(f, m, ids, lo, refuses);
    var g := Rename(f, ids[lo - 1], lo, refuses).files;
    assert Descended(g, m, ids, lo - 1);
    PartsGiveMap(g, m, ids, lo - 1);
  }

  /** After the first `i` renames of the largest-first order, the positions from `|ids| - i` on are final. */
  lemma {:induction false} DescendStages(m: Files, ids: seq<nat>, order: seq<nat>, i: nat, refuses: RenameRefusal)
    requires ListsIds(ids, m) && NoCollision(ids)
    requires order == Descending(|ids|)
    requires NeverRefuses(refuses)
    requires i <= |ids|
    ensures Renumber(m, ids, order[..i], refuses) == DescendedMap(m, ids, |ids| - i)
    decreases i
  {
    if i == 0 {
      assert order[..i] == [];
      PartsGiveMap(m, m, ids, |ids|);
    } else {
      var h := i - 1;
      DescendStages(m, ids, order, h, refuses);
      var lo := |ids| - h;
      assert order[h] == lo - 1;
      DescendMapStep(m, ids, lo, refuses);
      var before := Renumber(m, ids, order[..h], refuses);
      RenumberStep(m, ids, order, h, i, ids[lo - 1], lo, before, Rename(before, ids[lo - 1], lo, refuses).files, refuses);
    }
  }

  /** Without a collision, the whole largest-first order gives position `k` the id `k + 1` and leaves no other id. */
  lemma DescendEnd(m: Files, ids: seq<nat>, refuses: RenameRefusal)
    requires ListsIds(ids, m) && NoCollision(ids)
    requires NeverRefuses(refuses)
    ensures var r := Renumber(m, ids, Descending(|ids|), refuses);
      && (forall j :: j in r <==> 1 <= j <= |ids|)
      && (forall k | 0 <= k < |ids| :: r[k + 1] == m[ids[k]])
  {
    var order := Descending(|ids|);
    DescendStages(m, ids, order, |ids|, refuses);
    assert order[..|ids|] == order;
    DescendedMapParts(m, ids, 0);
    var r := Renumber(m, ids, order, refuses);
    forall j | j in m ensures |ids| > 0 && j >= ids[0] {
      var q :| 0 <= q < |ids| && ids[q] == j;
      if q > 0 { assert ids[0] < ids[q]; }
    }
    forall k | 0 <= k < |ids| ensures r[k + 1] == m[ids[k]] {
      assert k + 1 in r;
    }
  }

  /**
   * With every rename accepted, a resort as written without a collision
   * is the corrected resort: ids 1..n, the k-th smallest id's body at
   * k + 1, no body lost.
   */
  lemma ResortAsWrittenWithoutCollision(m: Files, refuses: RenameRefusal)
    requires NeverRefuses(refuses)
    requires NoCollision(SortedKeys(m.Keys))
    ensures ResortAsWritten(m, refuses) == ResortSafely(m, refuses)
    ensures var ids := SortedKeys(m.Keys);
      !Consecutive(ids) ==>
        && (forall j :: j in ResortAsWritten(m, refuses) <==> 1 <= j <= |ids|)
        && (forall k | 0 <= k < |ids| :: ResortAsWritten(m, refuses)[k + 1] == m[ids[k]])
  {
    var ids := SortedKeys(m.Keys);
    ResortAsWrittenUnfold(m, ids, refuses);
    ResortSafelyUnfold(m, ids, refuses);
    if !Consecutive(ids) {
      DescendEnd(m, ids, refuses);
      SafeRenumberFinal(m, ids, refuses);
      var a := Renumber(m, ids, Descending(|ids|), refuses);
      var b := Renumber(m, ids, SafeOrder(|ids|, FixedPrefix(ids)), refuses);
      forall k | 0 <= k < |ids| ensures ids[k] in m && a[k + 1] == m[ids[k]] && b[k + 1] == m[ids[k]] {
      }
      SameRenumbering(a, b, m, ids);
    }
  }

  /** Two directories that both give position `k` the id `k + 1`, and hold no other id, are equal. */
  lemma SameRenumbering(a: Files, b: Files, m: Files, ids: seq<nat>)
    requires forall j :: j in a <==> 1 <= j <= |ids|
    requires forall j :: j in b <==> 1 <= j <= |ids|
    requires forall k | 0 <= k < |ids| :: ids[k] in m && a[k + 1] == m[ids[k]] && b[k + 1] == m[ids[k]]
    ensures a == b
  {
    forall j | j in a ensures a[j] == b[j] {
      var k := j - 1;
      assert a[k + 1] == m[ids[k]] == b[k + 1];
    }
    SameMap(a, b);
  }

  /** A rename never adds an operation. */
  lemma RenameNeverGrows(f: Files, src: nat, dst: nat, refuses: RenameRefusal)
    ensures |Rename(f, src, dst, refuses).files| <= |f|
  {
    if src in f && !refuses(src, dst) {
      if dst in f && dst != src {
        RenameOverwrites(f, src, dst, refuses);
      } else if dst == src {
        RenameToSelf(f, src, refuses);
      } else {
        RenameToFreeId(f, src, dst, refuses);
      }
    }
  }

  /** Later stages of a renumbering hold no more operations than earlier ones. */
  lemma {:induction false} RenumberNeverGrows(m: Files, ids: seq<nat>, order: seq<nat>, i: nat, j: nat, refuses: RenameRefusal)
    requires i <= j <= |order|
    ensures |Renumber(m, ids, order[..j], refuses)| <= |Renumber(m, ids, order[..i], refuses)|
    decreases j - i
  {
    if i < j {
      var h := j - 1;
      RenumberNeverGrows(m, ids, order, i, h, refuses);
      var prev := Renumber(m, ids, order[..h], refuses);
      assert order[..j][..h] == order[..h];
      if order[h] < |ids| {
        RenameNeverGrows(prev, ids[order[h]], order[h] + 1, refuses);
      }
    }
  }

  /** The largest-first order only moves ids at or above the current position: the ids below it are still there. */
  lemma {:induction false} LowerIdsRemain(m: Files, ids: seq<nat>, order: seq<nat>, i: nat, refuses: RenameRefusal)
    requires ListsIds(ids, m)
    requires order == Descending(|ids|)
    requires i <= |ids|
    ensures forall q | 0 <= q < |ids| - i :: ids[q] in Renumber(m, ids, order[..i], refuses)
    decreases i
  {
    if i == 0 {
      assert order[..i] == [];
    } else {
      var h := i - 1;
      LowerIdsRemain(m, ids, order, h, refuses);
      var before := Renumber(m, ids, order[..h], refuses);
      var lo := |ids| - h;
      assert order[h] == lo - 1;
      var after := Rename(before, ids[lo - 1], lo, refuses).files;
      RenumberStep(m, ids, order, h, i, ids[lo - 1], lo, before, after, refuses);
      forall q | 0 <= q < |ids| - i ensures ids[q] in after {
        assert ids[q] < ids[lo - 1];
      }
    }
  }

  lemma IdStillThere(m: Files, ids: seq<nat>, order: seq<nat>, i: nat, q: nat, refuses: RenameRefusal)
    requires ListsIds(ids, m)
    requires order == Descending(|ids|)
    requires q < |ids| - i && i <= |ids|
    ensures ids[q] in Renumber(m, ids, order[..i], refuses)
  {
    LowerIdsRemain(m, ids, order, i, refuses);
  }

  /** A collision loses a body: the rename at the later position overwrites the earlier id, still unmoved. */
  lemma CollisionLosesBody(m: Files, ids: seq<nat>, j: nat, k: nat, refuses: RenameRefusal)
    requires ListsIds(ids, m)
    requires NeverRefuses(refuses)
    requires j < k < |ids| && ids[j] == k + 1
    ensures |Renumber(m, ids, Descending(|ids|), refuses)| < |m|
  {
    var n := |ids|;
    var order := Descending(n);
    var i := n - 1 - k;
    CollisionStep(m, ids, order, j, k, i, refuses);
    RenumberNeverGrows(m, ids, order, 0, i, refuses);
    RenumberNeverGrows(m, ids, order, i + 1, n, refuses);
    assert order[..0] == [];
    assert order[..n] == order;
  }

  /** The rename at position `k` lands on the id at position `j`, which is still there: one body is lost. */
  lemma CollisionStep(m: Files, ids: seq<nat>, order: seq<nat>, j: nat, k: nat, i: nat, refuses: RenameRefusal)
    requires ListsIds(ids, m)
    requires NeverRefuses(refuses)
    requires order == Descending(|ids|)
    requires j < k < |ids| && ids[j] == k + 1 && i == |ids| - 1 - k
    ensures |Renumber(m, ids, order[..i + 1], refuses)| == |Renumber(m, ids, order[..i], refuses)| - 1
  {
    var before := Renumber(m, ids, order[..i], refuses);
    IdStillThere(m, ids, order, i, k, refuses);
    IdStillThere(m, ids, order, i, j, refuses);
    assert ids[j] < ids[k];
    assert order[i] == k;
    RenameOverwrites(before, ids[k], k + 1, refuses);
    var after := Rename(before, ids[k], k + 1, refuses).files;
    RenumberStep(m, ids, order, i, i + 1, ids[k], k + 1, before, after, refuses);
  }

  /**
   * With every rename accepted, the resort as written keeps every body if
   * and only if the ids are already consecutive or no rename collides;
   * otherwise it loses at least one.
   */
  lemma ResortAsWrittenKeepsAllIff(m: Files, refuses: RenameRefusal)
    requires NeverRefuses(refuses)
    ensures |ResortAsWritten(m, refuses)| <= |m|
    ensures var ids := SortedKeys(m.Keys);
      |ResortAsWritten(m, refuses)| == |m| <==> Consecutive(ids) || NoCollision(ids)
  {
    var ids := SortedKeys(m.Keys);
    ResortAsWrittenUnfold(m, ids, refuses);
    if !Consecutive(ids) {
      if NoCollision(ids) {
        NoCollisionKeepsAll(m, ids, refuses);
      } else {
        CollisionLoses(m, ids, refuses);
      }
    }
  }

  lemma NoCollisionKeepsAll(m: Files, ids: seq<nat>, refuses: RenameRefusal)
    requires ids == SortedKeys(m.Keys) && NoCollision(ids)
    requires NeverRefuses(refuses)
    ensures |Renumber(m, ids, Descending(|ids|), refuses)| == |m|
  {
    assert |ids| == |m.Keys| == |m|;
    DescendEnd(m, ids, refuses);
    NumberedFromOne(Renumber(m, ids, Descending(|ids|), refuses), |ids|);
  }

  lemma CollisionLoses(m: Files, ids: seq<nat>, refuses: RenameRefusal)
    requires ids == SortedKeys(m.Keys) && !NoCollision(ids)
    requires NeverRefuses(refuses)
    ensures |Renumber(m, ids, Descending(|ids|), refuses)| < |m|
  {
    var j :| 0 <= j < |ids| && j + 1 < ids[j] <= |ids|;
    CollisionLosesBody(m, ids, j, ids[j] - 1, refuses);
  }

  /** The sorted ids of the directory in the counterexample below. */
  lemma IdsOneThreeFour(a: string, b: string, c: string)
    ensures SortedKeys(map[1 := a, 3 := b, 4 := c].Keys) == [1, 3, 4]
  {
    var m := map[1 := a, 3 := b, 4 := c];
    assert m.Keys == {1, 3, 4};
    SortedKeysUnique([1, 3, 4], m.Keys);
  }

  /**
   * Resort as written loses a body: with ids 1, 3 and 4 (ids 1..4 after
   * removing 2), the largest-first order moves 4 onto 3 before 3 has
   * moved, so the body at 3 is overwritten and one operation disappears.
   */
  lemma ResortAsWrittenLosesBody(a: string, b: string, c: string, refuses: RenameRefusal)
    requires NeverRefuses(refuses)
    ensures ResortAsWritten(map[1 := a, 3 := b, 4 := c], refuses) == map[1 := a, 2 := c]
    ensures |ResortAsWritten(map[1 := a, 3 := b, 4 := c], refuses)| == |map[1 := a, 3 := b, 4 := c]| - 1
  {
    var m := map[1 := a, 3 := b, 4 := c];
    assert ResortAsWritten(m, refuses) == map[1 := a, 2 := c] by {
      IdsOneThreeFour(a, b, c);
      ResortAsWrittenUnfold(m, [1, 3, 4], refuses);
      assert !Consecutive([1, 3, 4]) by {
        assert !OneMore([1, 3, 4], 1);
      }
      DescendingThree(3);
      AsWrittenRenames(a, b, c, refuses);
    }
    ExampleSizes(a, b, c);
  }

  lemma DescendingThree(n: nat)
    requires n == 3
    ensures Descending(n) == [2, 1, 0]
  {
    var d := Descending(n);
    assert d[0] == 2 && d[1] == 1 && d[2] == 0;
  }

  lemma ExampleSizes(a: string, b: string, c: string)
    ensures |map[1 := a, 3 := b, 4 := c]| == 3 && |map[1 := a, 2 := c]| == 2
  {
    assert map[1 := a, 3 := b, 4 := c].Keys == {1, 3, 4};
    assert map[1 := a, 2 := c].Keys == {1, 2};
  }

  /** The three renames of the counterexample: 4 to 3 (overwriting), 3 to 2, 1 onto itself. */
  lemma AsWrittenRenames(a: string, b: string, c: string, refuses: RenameRefusal)
    requires NeverRefuses(refuses)
    ensures Renumber(map[1 := a, 3 := b, 4 := c], [1, 3, 4], [2, 1, 0], refuses) == map[1 := a, 2 := c]
  {
    var m := map[1 := a, 3 := b, 4 := c];
    var ids := [1, 3, 4];
    assert !refuses(4, 3) && !refuses(3, 2);
    var f1 := Renumber(m, ids, [2], refuses);
    assert f1 == map[1 := a, 3 := c] by {
      assert [2][..0] == [];
      assert f1 == RenameFile(m, 4, 3);
    }
    var f2 := Renumber(m, ids, [2, 1], refuses);
    assert f2 == map[1 := a, 2 := c] by {
      assert [2, 1][..1] == [2];
      assert f2 == RenameFile(f1, 3, 2);
    }
    assert [2, 1, 0][..2] == [2, 1];
    RenameToSelf(f2, 1, refuses);
  }

  /** On the same directory the corrected resort keeps all three bodies, in order, as ids 1..3. */
  lemma ResortSafelyKeepsBody(a: string, b: string, c: string, refuses: RenameRefusal)
    requires NeverRefuses(refuses)
    ensures ResortSafely(map[1 := a, 3 := b, 4 := c], refuses) == map[1 := a, 2 := b, 3 := c]
  {
    var m := map[1 := a, 3 := b, 4 := c];
    IdsOneThreeFour(a, b, c);
    assert !Consecutive([1, 3, 4]) by {
      assert !OneMore([1, 3, 4], 1);
    }
    RenumberedOnList(m, [1, 3, 4], refuses);
    ThreeEntries(ResortSafely(m, refuses), a, b, c);
  }

  /** The corrected resort of a directory whose ids are not consecutive, spelled out for its id list. */
  lemma RenumberedOnList(m: Files, ids: seq<nat>, refuses: RenameRefusal)
    requires SortedKeys(m.Keys) == ids && !Consecutive(ids)
    requires NeverRefuses(refuses)
    ensures forall j: nat :: j in ResortSafely(m, refuses) <==> 1 <= j <= |ids|
    ensures forall k | 0 <= k < |ids| :: ResortSafely(m, refuses)[k + 1] == m[ids[k]]
  {
    ResortSafelyRenumbers(m, refuses);
  }

  lemma ThreeEntries(r: Files, a: string, b: string, c: string)
    requires forall j: nat :: j in r <==> 1 <= j <= 3
    requires 1 in r && 2 in r && 3 in r && r[1] == a && r[2] == b && r[3] == c
    ensures r == map[1 := a, 2 := b, 3 := c]
  {
  }

  /** The as-written resort of a directory whose ids are not consecutive is the renumbering largest first. */
  lemma ResortAsWrittenIs(m: Files, ids: seq<nat>, r: Files, refuses: RenameRefusal)
    requires ids == SortedKeys(m.Keys) && !Consecutive(ids)
    requires Renumber(m, ids, Descending(|ids|), refuses) == r
    ensures ResortAsWritten(m, refuses) == r
  {
    ResortAsWrittenUnfold(m, ids, refuses);
  }

  /** Two accepted renames along positions 1 then 0. */
  lemma RenumberTwoSteps(m: Files, ids: seq<nat>, f1: Files, f2: Files, refuses: RenameRefusal)
    requires NeverRefuses(refuses) && |ids| == 2
    requires ids[1] in m && f1 == RenameFile(m, ids[1], 2)
    requires ids[0] in f1 && f2 == RenameFile(f1, ids[0], 1)
    ensures Renumber(m, ids, [1, 0], refuses) == f2
  {
    assert !refuses(ids[1], 2) && !refuses(ids[0], 1);
    assert [1][..0] == [];
    assert Renumber(m, ids, [1], refuses) == f1;
    assert [1, 0][..1] == [1];
  }

  /** Three accepted renames along positions 2, 1 then 0. */
  lemma RenumberThreeSteps(m: Files, ids: seq<nat>, f1: Files, f2: Files, f3: Files, refuses: RenameRefusal)
    requires NeverRefuses(refuses) && |ids| == 3
    requires ids[2] in m && f1 == RenameFile(m, ids[2], 3)
    requires ids[1] in f1 && f2 == RenameFile(f1, ids[1], 2)
    requires ids[0] in f2 && f3 == RenameFile(f2, ids[0], 1)
    ensures Renumber(m, ids, [2, 1, 0], refuses) == f3
  {
    assert !refuses(ids[2], 3) && !refuses(ids[1], 2) && !refuses(ids[0], 1);
    assert [2][..0] == [];
    assert Renumber(m, ids, [2], refuses) == f1;
    assert [2, 1][..1] == [2];
    assert Renumber(m, ids, [2, 1], refuses) == f2;
    assert [2, 1, 0][..2] == [2, 1];
  }

  /** The sorted ids of a directory holding ids 1 and 3. */
  lemma IdsOneThree(x: string, y: string)
    ensures SortedKeys(map[1 := x, 3 := y].Keys) == [1, 3]
  {
    var m := map[1 := x, 3 := y];
    assert m.Keys == {1, 3};
    SortedKeysUnique([1, 3], m.Keys);
  }

  lemma DescendingTwo(n: nat)
    requires n == 2
    ensures Descending(n) == [1, 0]
  {
    var d := Descending(n);
    assert d[0] == 1 && d[1] == 0;
  }

  /** The two renames of resort as written on ids 1 and 3: 3 to the free id 2, then 1 onto itself. */
  lemma OneThreeRenames(x: string, y: string, refuses: RenameRefusal)
    requires NeverRefuses(refuses)
    ensures Renumber(map[1 := x, 3 := y], [1, 3], [1, 0], refuses) == map[1 := x, 2 := y]
  {
    var m := map[1 := x, 3 := y];
    var f1 := RenameFile(m, 3, 2);
    assert f1 == map[1 := x, 2 := y];
    assert RenameFile(f1, 1, 1) == f1;
    RenumberTwoSteps(m, [1, 3], f1, f1, refuses);
  }

  /** Resort as written on ids 1 and 3 moves the second body to id 2. */
  lemma ResortOneThree(x: string, y: string, refuses: RenameRefusal)
    requires NeverRefuses(refuses)
    ensures ResortAsWritten(map[1 := x, 3 := y], refuses) == map[1 := x, 2 := y]
  {
    IdsOneThree(x, y);
    assert !Consecutive([1, 3]) by {
      assert !OneMore([1, 3], 1);
    }
    DescendingTwo(2);
    OneThreeRenames(x, y, refuses);
    ResortAsWrittenIs(map[1 := x, 3 := y], [1, 3], map[1 := x, 2 := y], refuses);
  }

  /** The sorted ids of a directory holding ids 2, 4 and 5. */
  lemma IdsTwoFourFive(a: string, b: string, c: string)
    ensures SortedKeys(map[2 := a, 4 := b, 5 := c].Keys) == [2, 4, 5]
  {
    var m := map[2 := a, 4 := b, 5 := c];
    assert m.Keys == {2, 4, 5};
    SortedKeysUnique([2, 4, 5], m.Keys);
  }

  /** The three renames of resort as written on ids 2, 4 and 5: 5 to 3, 4 onto 2 (overwriting), 2 to 1. */
  lemma TwoFourFiveRenames(a: string, b: string, c: string, refuses: RenameRefusal)
    requires NeverRefuses(refuses)
    ensures Renumber(map[2 := a, 4 := b, 5 := c], [2, 4, 5], [2, 1, 0], refuses) == map[1 := b, 3 := c]
  {
    var m := map[2 := a, 4 := b, 5 := c];
    var f1 := RenameFile(m, 5, 3);
    assert f1 == map[2 := a, 3 := c, 4 := b];
    var f2 := RenameFile(f1, 4, 2);
    assert f2 == map[2 := b, 3 := c];
    var f3 := RenameFile(f2, 2, 1);
    assert f3 == map[1 := b, 3 := c];
    RenumberThreeSteps(m, [2, 4, 5], f1, f2, f3, refuses);
  }

  /** Resort as written on ids 2, 4 and 5 leaves ids 1 and 3: the body at 2 is overwritten. */
  lemma ResortTwoFourFive(a: string, b: string, c: string, refuses: RenameRefusal)
    requires NeverRefuses(refuses)
    ensures ResortAsWritten(map[2 := a, 4 := b, 5 := c], refuses) == map[1 := b, 3 := c]
  {
    IdsTwoFourFive(a, b, c);
    assert !Consecutive([2, 4, 5]) by {
      assert !OneMore([2, 4, 5], 1);
    }
    DescendingThree(3);
    TwoFourFiveRenames(a, b, c, refuses);
    ResortAsWrittenIs(map[2 := a, 4 := b, 5 := c], [2, 4, 5], map[1 := b, 3 := c], refuses);
  }

  /**
   * Resort as written is not idempotent, and its result need not be
   * consecutive: ids 2, 4 and 5 come out as 1 and 3 (the body at 2 is
   * overwritten), and a second resort then moves 3 down to 2.
   */
  lemma AsWrittenNotIdempotent(a: string, b: string, c: string, refuses: RenameRefusal)
    requires NeverRefuses(refuses)
    ensures ResortAsWritten(map[2 := a, 4 := b, 5 := c], refuses) == map[1 := b, 3 := c]
    ensures ResortAsWritten(map[1 := b, 3 := c], refuses) == map[1 := b, 2 := c]
    ensures ResortAsWritten(ResortAsWritten(map[2 := a, 4 := b, 5 := c], refuses), refuses)
            != ResortAsWritten(map[2 := a, 4 := b, 5 := c], refuses)
  {
    ResortTwoFourFive(a, b, c, refuses);
    ResortOneThree(b, c, refuses);
    assert 2 in map[1 := b, 2 := c] && 2 !in map[1 := b, 3 := c];
  }

  // ---------------------------------------------------------------------------
  // remove_operation
  // ---------------------------------------------------------------------------

  /** The directory `remove_operation(id)` leaves: the file deleted, then the ids resorted as written. */
  ghost function RemoveOutcome(m: Files, id: nat, refuses: RenameRefusal): Files {
    if id in m then ResortAsWritten(m - {id}, refuses) else m
  }

  /** The test of `remove_operation`: ids [1, 2, 3], removing 2, leaves ids [1, 2] holding the first and third bodies. */
  lemma RemoveExample(a: string, b: string, c: string, refuses: RenameRefusal)
    requires NeverRefuses(refuses)
    ensures RemoveOutcome(map[1 := a, 2 := b, 3 := c], 2, refuses) == map[1 := a, 2 := c]
  {
    var m := map[1 := a, 2 := b, 3 := c];
    assert m - {2} == map[1 := a, 3 := c];
    ResortOneThree(a, c, refuses);
  }

  /**
   * Removing an operation can lose a second one: from ids 1..4, removing 2
   * leaves ids 1, 3 and 4, whose resort as written overwrites the body at 3.
   */
  lemma RemoveAsWrittenLosesBody(a: string, b: string, c: string, d: string, refuses: RenameRefusal)
    requires NeverRefuses(refuses)
    ensures RemoveOutcome(map[1 := a, 2 := b, 3 := c, 4 := d], 2, refuses) == map[1 := a, 2 := d]
    ensures |RemoveOutcome(map[1 := a, 2 := b, 3 := c, 4 := d], 2, refuses)| == |map[1 := a, 2 := b, 3 := c, 4 := d]| - 2
  {
    RemoveTwoOfFour(a, b, c, d);
    ResortAsWrittenLosesBody(a, c, d, refuses);
    ExampleSizes(a, c, d);
  }

  lemma RemoveTwoOfFour(a: string, b: string, c: string, d: string)
    ensures map[1 := a, 2 := b, 3 := c, 4 := d] - {2} == map[1 := a, 3 := c, 4 := d]
    ensures |map[1 := a, 2 := b, 3 := c, 4 := d]| == 4
  {
    assert map[1 := a, 2 := b, 3 := c, 4 := d].Keys == {1, 2, 3, 4};
  }

  /**
   * `add_operation` numbers operations from 0. Removing any but the last
   * of the ids 0..n-1 leaves the ids 1..n-1, numbered from one: id j holds
   * the body that was at `Origin(id, j)`, so no body is lost. Removing the
   * last id leaves 0..n-2 as they were.
   */
  lemma RemoveFromZeroBased(m: Files, n: nat, id: nat, refuses: RenameRefusal)
    requires forall j: nat :: j in m <==> j < n
    requires id < n
    requires NeverRefuses(refuses)
    ensures id == n - 1 ==> RemoveOutcome(m, id, refuses) == m - {id}
    ensures id < n - 1 ==> forall j: nat :: j in RemoveOutcome(m, id, refuses) <==> 1 <= j < n
    ensures id < n - 1 ==> forall j: nat | 1 <= j < n :: RemoveOutcome(m, id, refuses)[j] == m[Origin(id, j)]
  {
    if id == n - 1 {
      LastRemoved(m, n, id, refuses);
    } else {
      MiddleRemoved(m, n, id, refuses);
    }
  }

  /** The id whose body id `j` holds after `id` is removed from 0..n-1 and the rest numbered from one. */
  function Origin(id: nat, j: nat): nat {
    if 0 < j <= id then j - 1 else j
  }

  /** The ids left after removing `id` from 0..n-1, in ascending order. */
  function RemainingIds(id: nat, n: nat): (ids: seq<nat>)
    requires id < n
    ensures |ids| == n - 1
    ensures forall k | 0 <= k < n - 1 :: ids[k] == Origin(id, k + 1)
  {
    seq(n - 1, k requires 0 <= k < n - 1 => Origin(id, k + 1))
  }

  lemma LastRemoved(m: Files, n: nat, id: nat, refuses: RenameRefusal)
    requires forall j: nat :: j in m <==> j < n
    requires id == n - 1
    ensures RemoveOutcome(m, id, refuses) == m - {id}
  {
    var rest := m - {id};
    var ids := RemainingIds(id, n);
    assert forall j: nat :: j in rest <==> j < n && j != id;
    ZeroBasedRemainder(rest, n, id, ids);
    assert Consecutive(ids);
    ResortAsWrittenUnfold(rest, ids, refuses);
  }

  lemma MiddleRemoved(m: Files, n: nat, id: nat, refuses: RenameRefusal)
    requires forall j: nat :: j in m <==> j < n
    requires id < n - 1
    requires NeverRefuses(refuses)
    ensures forall j: nat :: j in RemoveOutcome(m, id, refuses) <==> 1 <= j < n
    ensures forall j: nat | 1 <= j < n :: RemoveOutcome(m, id, refuses)[j] == m[Origin(id, j)]
  {
    var rest := m - {id};
    var ids := RemainingIds(id, n);
    assert forall j: nat :: j in rest <==> j < n && j != id;
    ZeroBasedRemainder(rest, n, id, ids);
    var r := RemoveOutcome(m, id, refuses);
    assert r == ResortAsWritten(rest, refuses);
    if id == 0 {
      FirstRemainder(rest, r, n, ids, refuses);
      KeptInPlace(rest, r, n, id);
    } else {
      InnerRemainder(rest, r, n, id, ids, refuses);
      MovedByDescent(rest, r, n, id, ids, refuses);
    }
    RemainderOfWhole(m, rest, r, n, id);
  }

  /** The remaining bodies, read in the directory before the removal. */
  lemma RemainderOfWhole(m: Files, rest: Files, r: Files, n: nat, id: nat)
    requires forall j: nat :: j in m <==> j < n
    requires id < n && rest == m - {id}
    requires forall j: nat :: j in r <==> 1 <= j < n
    requires forall j: nat | 1 <= j < n :: Origin(id, j) in rest && r[j] == rest[Origin(id, j)]
    ensures forall j: nat | 1 <= j < n :: r[j] == m[Origin(id, j)]
  {
  }

  /** After removing id 0, the ids 1..n-1 are consecutive and stay as they are. */
  lemma FirstRemainder(rest: Files, r: Files, n: nat, ids: seq<nat>, refuses: RenameRefusal)
    requires forall j: nat :: j in rest <==> 0 < j < n
    requires ids == SortedKeys(rest.Keys)
    requires |ids| == n - 1 && forall k | 0 <= k < n - 1 :: ids[k] == Origin(0, k + 1)
    requires r == ResortAsWritten(rest, refuses)
    ensures r == rest
  {
    ResortAsWrittenUnfold(rest, ids, refuses);
    assert Consecutive(ids);
  }

  /** Ids 1..n-1 left in place hold their own bodies. */
  lemma KeptInPlace(rest: Files, r: Files, n: nat, id: nat)
    requires forall j: nat :: j in rest <==> 0 < j < n
    requires id == 0 && r == rest
    ensures forall j: nat :: j in r <==> 1 <= j < n
    ensures forall j: nat | 1 <= j < n :: Origin(id, j) in rest && r[j] == rest[Origin(id, j)]
  {
  }

  /** After removing an inner id, the ids are not consecutive, so the resort renames largest first. */
  lemma InnerRemainder(rest: Files, r: Files, n: nat, id: nat, ids: seq<nat>, refuses: RenameRefusal)
    requires 0 < id < n - 1
    requires ids == SortedKeys(rest.Keys)
    requires |ids| == n - 1 && forall k | 0 <= k < n - 1 :: ids[k] == Origin(id, k + 1)
    requires r == ResortAsWritten(rest, refuses)
    ensures r == Renumber(rest, ids, Descending(|ids|), refuses)
  {
    ResortAsWrittenUnfold(rest, ids, refuses);
    assert !OneMore(ids, id);
  }

  /** Renaming largest first moves the remaining ids, which do not collide, to 1..n-1 in order. */
  lemma MovedByDescent(rest: Files, r: Files, n: nat, id: nat, ids: seq<nat>, refuses: RenameRefusal)
    requires id < n
    requires ListsIds(ids, rest) && NoCollision(ids)
    requires |ids| == n - 1 && forall k | 0 <= k < n - 1 :: ids[k] == Origin(id, k + 1)
    requires NeverRefuses(refuses)
    requires r == Renumber(rest, ids, Descending(|ids|), refuses)
    ensures forall j: nat :: j in r <==> 1 <= j < n
    ensures forall j: nat | 1 <= j < n :: Origin(id, j) in rest && r[j] == rest[Origin(id, j)]
  {
    DescendEnd(rest, ids, refuses);
    forall j: nat | 1 <= j < n ensures Origin(id, j) in rest && r[j] == rest[Origin(id, j)] {
      assert ids[j - 1] == Origin(id, j);
    }
  }

  lemma ZeroBasedRemainder(rest: Files, n: nat, id: nat, ids: seq<nat>)
    requires forall j: nat :: j in rest <==> j < n && j != id
    requires id < n
    requires |ids| == n - 1 && forall k | 0 <= k < n - 1 :: ids[k] == Origin(id, k + 1)
    ensures ids == SortedKeys(rest.Keys) && ListsIds(ids, rest) && NoCollision(ids)
  {
    forall j: nat | j in rest ensures j in ids {
      var k := if j < id then j else j - 1;
      assert ids[k] == j;
    }
    forall j | 0 <= j < |ids| ensures ids[j] <= j + 1 {
    }
    SortedKeysUnique(ids, rest.Keys);
  }

  /** `remove_operation` with the corrected resort. */
  ghost function RemoveSafelyOutcome(m: Files, id: nat, refuses: RenameRefusal): Files {
    if id in m then ResortSafely(m - {id}, refuses) else m
  }

  /**
   * With every rename accepted, removing a listed id with the corrected
   * resort leaves one operation fewer, on consecutive ids.
   */
  lemma RemoveSafelyDropsOne(m: Files, id: nat, refuses: RenameRefusal)
    requires id in m
    requires NeverRefuses(refuses)
    ensures |RemoveSafelyOutcome(m, id, refuses)| == |m| - 1
    ensures Consecutive(SortedKeys(RemoveSafelyOutcome(m, id, refuses).Keys))
  {
    var rest := m - {id};
    var ids := SortedKeys(rest.Keys);
    ResortSafelyRenumbers(rest, refuses);
    if !Consecutive(ids) {
      NumberedFromOne(ResortSafely(rest, refuses), |ids|);
    }
  }

  /** On the same directory, the corrected remove keeps the other three bodies, in order. */
  lemma RemoveSafelyKeepsBodies(a: string, b: string, c: string, d: string, refuses: RenameRefusal)
    requires NeverRefuses(refuses)
    ensures RemoveSafelyOutcome(map[1 := a, 2 := b, 3 := c, 4 := d], 2, refuses) == map[1 := a, 2 := c, 3 := d]
  {
    RemoveTwoOfFour(a, b, c, d);
    ResortSafelyKeepsBody(a, c, d, refuses);
  }
}
