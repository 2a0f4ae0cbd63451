/** `write_sparse_as_dense`: writing a sparse matrix into the file as a dense
    dataset, one window of 1000 positions at a time along the fill axis
    (columns for an in-memory CSC matrix, rows otherwise). When the key is
    already taken and the value is an on-disk object of the same file, the
    dataset is first written under a temporary sibling key and swapped in
    only once it is complete; when the key is taken and the value is not such
    an object, the key is deleted first. */
module OverwriteGuard {
  import opened Errors
  import opened Matrix
  import opened ChunkPlanner
  import opened TempKey
  import opened Store

  /** The number of positions per window of the fill loop. */
  const ChunkSize: nat := 1000

  /** The value being written: an in-memory `scipy.sparse` matrix, or an
      on-disk one (an HDF5 group, dataset or sparse dataset) together with
      whether it lives in the file being written to. */
  datatype SparseValue<T> =
    | InMemory(matrix: SparseMatrix<T>)
    | OnDisk(matrix: SparseMatrix<T>, sameFile: bool)

  /** The value is an on-disk object of the destination file, wherever in
      the file it sits; deleting the key first might delete what is being
      read, so the guard does not. */
  predicate Aliased<T>(v: SparseValue<T>) {
    v.OnDisk? && v.sameFile
  }

  /** `int(isinstance(value, sparse.csc_matrix))`: only an in-memory CSC
      matrix is filled column window by column window. */
  function CompressedAxis<T>(v: SparseValue<T>): (axis: Axis)
    ensures axis == 1 <==> v.InMemory? && v.matrix.format == Csc
  {
    if v.InMemory? && v.matrix.format == Csc then 1 else 0
  }

  /** The three ways the guard can go. */
  datatype Branch = Swap | Wipe | Fresh

  function BranchOf<T>(nodes: Nodes<T>, key: string, v: SparseValue<T>): (b: Branch)
    ensures b == Swap <==> key in nodes && Aliased(v)
    ensures b == Wipe <==> key in nodes && !Aliased(v)
    ensures b == Fresh <==> key !in nodes
  {
    if key in nodes then (if Aliased(v) then Swap else Wipe) else Fresh
  }

  /** The key the dataset is created and filled under. */
  function DestKey<T>(nodes: Nodes<T>, key: string, v: SparseValue<T>): (d: string)
    ensures d != key ==> key in nodes && Aliased(v)
  {
    if BranchOf(nodes, key, v) == Swap then TempKey.TempKey(key) else key
  }

  /** The windows of the fill loop for a dataset of the shape of `full`. */
  function FillWindows<T>(full: Dense<T>, axis: Axis): (ws: seq<Window>)
    ensures |ws| >= 1 && ws[0].start == 0 && ws[|ws| - 1].stop == Extent(full, axis)
    ensures forall k | 0 <= k < |ws| :: ws[k].start <= ws[k].stop <= Extent(full, axis)
  {
    Chunks(Extent(full, axis), ChunkSize)
  }

  /** The window writes of the fill loop: window `k` of `full` into window
      `k` of the dataset at `dest`. */
  function FillOps<T>(dest: string, full: Dense<T>, axis: Axis): (ops: seq<Op<T>>)
    requires WellShaped(full)
    ensures |ops| == |FillWindows(full, axis)|
  {
    var ws := FillWindows(full, axis);
    seq(|ws|, k requires 0 <= k < |ws| =>
      WriteOp(dest, axis, ws[k].start, ws[k].stop, Slice(full, axis, ws[k].start, ws[k].stop)))
  }

  /** Each fill operation writes one window of at most 1000 positions along
      the fill axis of the dataset at `dest`. */
  lemma FillOpsShape<T>(dest: string, full: Dense<T>, axis: Axis)
    requires WellShaped(full)
    ensures var ops := FillOps(dest, full, axis);
      forall k | 0 <= k < |ops| ::
        ops[k].WriteOp? && ops[k].key == dest && ops[k].axis == axis && ops[k].hi - ops[k].lo <= ChunkSize
  {
    FillWindowSizes(full, axis);
  }

  /** Every store operation `write_sparse_as_dense` performs, in order. */
  function OverwriteOps<T>(nodes: Nodes<T>, key: string, v: SparseValue<T>, fill: T): (ops: seq<Op<T>>)
    requires Valid(v.matrix)
    ensures forall j | 0 <= j < |ops| :: Target(ops[j]) == key || Target(ops[j]) == DestKey(nodes, key, v)
  {
    var full := ToDense(v.matrix, fill);
    var dest := DestKey(nodes, key, v);
    var create := CreateOp(dest, v.matrix.rows, v.matrix.cols);
    var writes := FillOps(dest, full, CompressedAxis(v));
    match BranchOf(nodes, key, v)
    case Swap => [create] + writes + [DeleteOp(key), LinkOp(key, dest), DeleteOp(dest)]
    case Wipe => [DeleteOp(key), create] + writes
    case Fresh => [create] + writes
  }

  // ---------------------------------------------------------------------
  // The fill loop

  /** Each window of the fill has at most 1000 positions along the fill
      axis, and none is empty unless the axis is. */
  lemma FillWindowSizes<T>(full: Dense<T>, axis: Axis)
    ensures var ws := FillWindows(full, axis);
      forall k | 0 <= k < |ws| ::
        ws[k].stop - ws[k].start <= ChunkSize && (Extent(full, axis) > 0 ==> ws[k].start < ws[k].stop)
  {
  }

  /** Every position along the fill axis is written by exactly one window. */
  lemma EachPositionOnce<T>(dest: string, full: Dense<T>, axis: Axis, p: nat)
    requires WellShaped(full) && p < Extent(full, axis)
    ensures var ops := FillOps(dest, full, axis);
      && (exists k | 0 <= k < |ops| :: ops[k].lo <= p < ops[k].hi)
      && (forall k, l | 0 <= k < |ops| && 0 <= l < |ops| &&
            ops[k].lo <= p < ops[k].hi && ops[l].lo <= p < ops[l].hi :: k == l)
  {
    var ws := FillWindows(full, axis);
    var ops := FillOps(dest, full, axis);
    ChunksPartition(Extent(full, axis), ChunkSize);
    assert CoveredBy(ws, p);
    var k :| 0 <= k < |ws| && InWindow(ws[k], p);
    assert ops[k].lo <= p < ops[k].hi;
    forall k, l | 0 <= k < |ops| && 0 <= l < |ops| && ops[k].lo <= p < ops[k].hi && ops[l].lo <= p < ops[l].hi
      ensures k == l
    {
      assert ops[k].lo == ws[k].start && ops[k].hi == ws[k].stop;
      assert ops[l].lo == ws[l].start && ops[l].hi == ws[l].stop;
    }
  }

  /** After the first `i` window writes the destination holds the target in
      the windows written so far and the fill value elsewhere. */
  lemma {:induction false} RunFillPrefix<T>(nodes: Nodes<T>, dest: string, full: Dense<T>, axis: Axis, fill: T, i: nat)
    requires WellShaped(full) && dest in nodes && nodes[dest] == DenseNode(Zeros(full.rows, full.cols, fill))
    requires i <= |FillWindows(full, axis)|
    ensures Run(nodes, FillOps(dest, full, axis)[..i], fill)
         == Success(nodes[dest := DenseNode(PartlyFilled(full, axis, Covered(FillWindows(full, axis), i), fill))])
    decreases i
  {
    var ws := FillWindows(full, axis);
    var ops := FillOps(dest, full, axis);
    if i == 0 {
      FilledNothing(full, axis, fill);
      assert ops[..0] == [];
      assert nodes[dest := nodes[dest]] == nodes;
    } else {
      RunFillPrefix(nodes, dest, full, axis, fill, i - 1);
      var lo, hi := ws[i - 1].start, ws[i - 1].stop;
      var mid := nodes[dest := DenseNode(PartlyFilled(full, axis, Covered(ws, i - 1), fill))];
      assert ops[..i] == ops[..i - 1] + [ops[i - 1]];
      RunSnoc(nodes, ops[..i - 1], ops[i - 1], fill, mid);
      ConsecutiveStart(Extent(full, axis), ChunkSize, i - 1);
      assert ops[i - 1] == WriteOp(dest, axis, lo, hi, Slice(full, axis, lo, hi));
      WriteNextWindow(nodes, dest, full, axis, fill, lo, hi);
    }
  }

  /** Writing window `[lo, hi)` of the target into a destination filled up
      to `lo` leaves it filled up to `hi`. */
  lemma WriteNextWindow<T>(nodes: Nodes<T>, dest: string, full: Dense<T>, axis: Axis, fill: T, lo: nat, hi: nat)
    requires WellShaped(full) && lo <= hi <= Extent(full, axis)
    ensures Apply(nodes[dest := DenseNode(PartlyFilled(full, axis, lo, fill))],
                  WriteOp(dest, axis, lo, hi, Slice(full, axis, lo, hi)), fill)
         == Success(nodes[dest := DenseNode(PartlyFilled(full, axis, hi, fill))])
  {
    var mid := nodes[dest := DenseNode(PartlyFilled(full, axis, lo, fill))];
    FillStep(full, axis, lo, hi, fill);
    assert mid[dest := DenseNode(PartlyFilled(full, axis, hi, fill))]
        == nodes[dest := DenseNode(PartlyFilled(full, axis, hi, fill))];
  }

  /** The whole fill turns the freshly created dataset into the target. */
  lemma RunFill<T>(nodes: Nodes<T>, dest: string, full: Dense<T>, axis: Axis, fill: T)
    requires WellShaped(full) && dest in nodes && nodes[dest] == DenseNode(Zeros(full.rows, full.cols, fill))
    ensures Run(nodes, FillOps(dest, full, axis), fill) == Success(nodes[dest := DenseNode(full)])
  {
    var ops := FillOps(dest, full, axis);
    RunFillPrefix(nodes, dest, full, axis, fill, |ops|);
    assert ops[..|ops|] == ops;
    FilledEverything(full, axis, fill);
  }

  // ---------------------------------------------------------------------
  // The outcome

  /** A create followed by the fill. */
  lemma RunCreateFill<T>(nodes: Nodes<T>, dest: string, full: Dense<T>, axis: Axis, fill: T)
    requires WellShaped(full) && dest !in nodes
    ensures Run(nodes, [CreateOp(dest, full.rows, full.cols)] + FillOps(dest, full, axis), fill)
         == Success(nodes[dest := DenseNode(full)])
  {
    var created := nodes[dest := DenseNode(Zeros(full.rows, full.cols, fill))];
    RunAppend(nodes, [CreateOp(dest, full.rows, full.cols)], FillOps(dest, full, axis), fill);
    assert Run(nodes, [CreateOp(dest, full.rows, full.cols)], fill) == Success(created) by {
      assert Run(created, [], fill) == Success(created);
    }
    RunFill(created, dest, full, axis, fill);
    assert created[dest := DenseNode(full)] == nodes[dest := DenseNode(full)];
  }

  /** The closing swap: delete the real key, link it to the temporary key,
      delete the temporary key. */
  lemma RunSwap<T>(nodes: Nodes<T>, key: string, tmp: string, node: Node<T>, fill: T)
    requires key in nodes && tmp !in nodes
    ensures Run(nodes[tmp := node], [DeleteOp(key), LinkOp(key, tmp), DeleteOp(tmp)], fill)
         == Success(nodes[key := node])
  {
    var s0 := nodes[tmp := node];
    var s1 := s0 - {key};
    var s2 := s1[key := node];
    var s3 := s2 - {tmp};
    assert Apply(s0, DeleteOp(key), fill) == Success(s1);
    assert Apply(s1, LinkOp(key, tmp), fill) == Success(s2);
    assert Apply(s2, DeleteOp(tmp), fill) == Success(s3);
    var ops: seq<Op<T>> := [DeleteOp(key), LinkOp(key, tmp), DeleteOp(tmp)];
    assert ops[1..] == [LinkOp(key, tmp), DeleteOp(tmp)];
    assert ops[1..][1..] == [DeleteOp(tmp)];
    assert Run(s3, [], fill) == Success(s3);
    assert Run(s2, [DeleteOp(tmp)], fill) == Success(s3);
    assert Run(s1, ops[1..], fill) == Success(s3);
    assert Run(s0, ops, fill) == Success(s3);
    assert s3 == nodes[key := node];
  }

  /** What `write_sparse_as_dense` does to the file: it fails with
      `ValueError` (from `create_dataset`) exactly when it has to use the
      temporary key and that key is taken; otherwise the key holds the
      dense expansion of the value afterwards and no other key has changed,
      the temporary key included. */
  lemma OverwriteOutcome<T>(nodes: Nodes<T>, key: string, v: SparseValue<T>, fill: T)
    requires Valid(v.matrix)
    ensures Run(nodes, OverwriteOps(nodes, key, v, fill), fill) ==
      if BranchOf(nodes, key, v) == Swap && TempKey.TempKey(key) in nodes then Failure(ValueError)
      else Success(nodes[key := DenseNode(ToDense(v.matrix, fill))])
  {
    var full := ToDense(v.matrix, fill);
    var dest := DestKey(nodes, key, v);
    var axis := CompressedAxis(v);
    var writes := FillOps(dest, full, axis);
    match BranchOf(nodes, key, v)
    case Swap =>
      assert OverwriteOps(nodes, key, v, fill)
          == [CreateOp(dest, full.rows, full.cols)] + writes + [DeleteOp(key), LinkOp(key, dest), DeleteOp(dest)];
      SwapOutcome(nodes, key, dest, full, axis, fill);
    case Wipe =>
      assert OverwriteOps(nodes, key, v, fill) == [DeleteOp(key), CreateOp(dest, full.rows, full.cols)] + writes;
      WipeOutcome(nodes, key, full, axis, fill);
    case Fresh =>
      RunCreateFill(nodes, dest, full, axis, fill);
  }

  /** The aliased branch: the create under the temporary key fails when that
      key is taken, and otherwise the swap leaves the dense expansion at the
      real key. */
  lemma SwapOutcome<T>(nodes: Nodes<T>, key: string, tmp: string, full: Dense<T>, axis: Axis, fill: T)
    requires WellShaped(full) && key in nodes
    ensures Run(nodes, [CreateOp(tmp, full.rows, full.cols)] + FillOps(tmp, full, axis)
                       + [DeleteOp(key), LinkOp(key, tmp), DeleteOp(tmp)], fill)
         == if tmp in nodes then Failure(ValueError) else Success(nodes[key := DenseNode(full)])
  {
    var create := CreateOp(tmp, full.rows, full.cols);
    var writes := FillOps(tmp, full, axis);
    var tail := [DeleteOp(key), LinkOp(key, tmp), DeleteOp(tmp)];
    RunAppend(nodes, [create] + writes, tail, fill);
    if tmp in nodes {
      RunAppend(nodes, [create], writes, fill);
      assert Run(nodes, [create], fill) == Failure(ValueError);
    } else {
      RunCreateFill(nodes, tmp, full, axis, fill);
      RunSwap(nodes, key, tmp, DenseNode(full), fill);
    }
  }

  /** The non-aliased branch on a taken key: delete it, then create and fill
      under the key itself. */
  lemma WipeOutcome<T>(nodes: Nodes<T>, key: string, full: Dense<T>, axis: Axis, fill: T)
    requires WellShaped(full) && key in nodes
    ensures Run(nodes, [DeleteOp(key), CreateOp(key, full.rows, full.cols)] + FillOps(key, full, axis), fill)
         == Success(nodes[key := DenseNode(full)])
  {
    var wiped := nodes - {key};
    var rest := [CreateOp(key, full.rows, full.cols)] + FillOps(key, full, axis);
    assert [DeleteOp(key), CreateOp(key, full.rows, full.cols)] + FillOps(key, full, axis) == [DeleteOp(key)] + rest;
    RunAppend(nodes, [DeleteOp(key)], rest, fill);
    assert Run(nodes, [DeleteOp(key)], fill) == Success(wiped) by {
      assert Run(wiped, [], fill) == Success(wiped);
    }
    RunCreateFill(wiped, key, full, axis, fill);
    assert wiped[key := DenseNode(full)] == nodes[key := DenseNode(full)];
  }

  /** After a successful swap the temporary key is gone, and a key other than
      the real one is present afterwards exactly when it was before, with the
      same node. */
  lemma OverwriteFrame<T>(nodes: Nodes<T>, key: string, v: SparseValue<T>, fill: T, other: string)
    requires Valid(v.matrix) && Run(nodes, OverwriteOps(nodes, key, v, fill), fill).Success?
    requires other != key
    ensures var after := Run(nodes, OverwriteOps(nodes, key, v, fill), fill).value;
      && key in after
      && (BranchOf(nodes, key, v) == Swap ==> TempKey.TempKey(key) !in after)
      && (other in after <==> other in nodes)
      && (other in nodes ==> after[other] == nodes[other])
  {
    OverwriteOutcome(nodes, key, v, fill);
  }

  /** In the aliased branch the real key keeps the value being written until
      every window has been written to the temporary key: it is untouched by
      the create and by every prefix of the fill, and it is the operation
      right after the fill that deletes it. */
  lemma SourceReadable<T>(nodes: Nodes<T>, key: string, v: SparseValue<T>, fill: T, n: nat)
    requires Valid(v.matrix) && BranchOf(nodes, key, v) == Swap && TempKey.TempKey(key) !in nodes
    requires n <= 1 + |FillWindows(ToDense(v.matrix, fill), CompressedAxis(v))|
    ensures var ops := OverwriteOps(nodes, key, v, fill);
      && n < |ops| && ops[1 + |FillWindows(ToDense(v.matrix, fill), CompressedAxis(v))|] == DeleteOp(key)
      && (forall j | 0 <= j < n :: Target(ops[j]) != key)
      && Run(nodes, ops[..n], fill).Success?
      && key in Run(nodes, ops[..n], fill).value && Run(nodes, ops[..n], fill).value[key] == nodes[key]
  {
    var full := ToDense(v.matrix, fill);
    var tmp := TempKey.TempKey(key);
    var writes := [CreateOp(tmp, full.rows, full.cols)] + FillOps(tmp, full, CompressedAxis(v));
    var ops := OverwriteOps(nodes, key, v, fill);
    OverwriteOpsBranches(nodes, key, v, fill, writes);
    assert ops[|writes|] == DeleteOp(key);
    assert ops[..n] == writes[..n];
    CreateFillTargets(tmp, full, CompressedAxis(v));
    if n > 0 {
      CreateFillPrefix(nodes, tmp, full, CompressedAxis(v), fill, n);
    } else {
      assert Run(nodes, ops[..0], fill) == Success(nodes);
    }
  }

  /** The create and the first `n - 1` window writes leave the temporary
      key partly filled and every other key alone. */
  lemma CreateFillPrefix<T>(nodes: Nodes<T>, tmp: string, full: Dense<T>, axis: Axis, fill: T, n: nat)
    requires WellShaped(full) && tmp !in nodes && 1 <= n <= 1 + |FillWindows(full, axis)|
    ensures Run(nodes, ([CreateOp(tmp, full.rows, full.cols)] + FillOps(tmp, full, axis))[..n], fill)
         == Success(nodes[tmp := DenseNode(PartlyFilled(full, axis, Covered(FillWindows(full, axis), n - 1), fill))])
  {
    var create := CreateOp(tmp, full.rows, full.cols);
    var fills := FillOps(tmp, full, axis);
    var created := nodes[tmp := DenseNode(Zeros(full.rows, full.cols, fill))];
    assert ([create] + fills)[..n] == [create] + fills[..n - 1];
    RunAppend(nodes, [create], fills[..n - 1], fill);
    assert Run(nodes, [create], fill) == Success(created) by {
      assert Run(created, [], fill) == Success(created);
    }
    RunFillPrefix(created, tmp, full, axis, fill, n - 1);
    assert created[tmp := DenseNode(PartlyFilled(full, axis, Covered(FillWindows(full, axis), n - 1), fill))]
        == nodes[tmp := DenseNode(PartlyFilled(full, axis, Covered(FillWindows(full, axis), n - 1), fill))];
  }

  /** The create and every window write target the destination. */
  lemma CreateFillTargets<T>(tmp: string, full: Dense<T>, axis: Axis)
    requires WellShaped(full)
    ensures var writes := [CreateOp(tmp, full.rows, full.cols)] + FillOps(tmp, full, axis);
      forall j | 0 <= j < |writes| :: Target(writes[j]) == tmp
  {
    var fills := FillOps(tmp, full, axis);
    var writes := [CreateOp(tmp, full.rows, full.cols)] + fills;
    assert forall j | 1 <= j < |writes| :: writes[j] == fills[j - 1];
  }

  method Fill<T>(f: Store<T>, dest: string, m: SparseMatrix<T>, axis: Axis)
    requires Valid(m) && dest in f.nodes && f.nodes[dest] == DenseNode(Zeros(m.rows, m.cols, f.fill))
    modifies f
    ensures f.nodes == old(f.nodes)[dest := DenseNode(ToDense(m, f.fill))]
    ensures f.log == old(f.log) + FillOps(dest, ToDense(m, f.fill), axis)
  {
    ghost var full := ToDense(m, f.fill);
    ghost var ops := FillOps(dest, full, axis);
    var windows := Chunks(if axis == 0 then m.rows else m.cols, ChunkSize);
    assert windows == FillWindows(full, axis);
    FilledNothing(full, axis, f.fill);
    assert old(f.nodes)[dest := DenseNode(PartlyFilled(full, axis, 0, f.fill))] == f.nodes;
    for i := 0 to |windows|
      invariant f.nodes == old(f.nodes)[dest := DenseNode(PartlyFilled(full, axis, Covered(windows, i), f.fill))]
      invariant f.log == old(f.log) + ops[..i]
    {
      var lo, hi := windows[i].start, windows[i].stop;
      var chunk := Slice(ToDense(m, f.fill), axis, lo, hi);
      FillIteration(old(f.nodes), dest, full, axis, f.fill, i);
      var r := f.WriteWindow(dest, axis, lo, hi, chunk);
    }
    assert ops[..|windows|] == ops;
    FilledEverything(full, axis, f.fill);
  }

  /** One turn of the fill loop: window `i` starts where the earlier ones
      stop, its write is the next operation of the fill, and it extends the
      filled region to the window's stop. */
  lemma FillIteration<T>(nodes: Nodes<T>, dest: string, full: Dense<T>, axis: Axis, fill: T, i: nat)
    requires WellShaped(full) && i < |FillWindows(full, axis)|
    ensures var ws := FillWindows(full, axis);
      var op := WriteOp(dest, axis, ws[i].start, ws[i].stop, Slice(full, axis, ws[i].start, ws[i].stop));
      && FillOps(dest, full, axis)[..i + 1] == FillOps(dest, full, axis)[..i] + [op]
      && Apply(nodes[dest := DenseNode(PartlyFilled(full, axis, Covered(ws, i), fill))], op, fill)
         == Success(nodes[dest := DenseNode(PartlyFilled(full, axis, Covered(ws, i + 1), fill))])
  {
    var ws := FillWindows(full, axis);
    var ops := FillOps(dest, full, axis);
    ConsecutiveStart(Extent(full, axis), ChunkSize, i);
    assert ops[..i + 1] == ops[..i] + [ops[i]];
    WriteNextWindow(nodes, dest, full, axis, fill, ws[i].start, ws[i].stop);
  }

  /** `create_dataset` followed by the fill loop. */
  method CreateFilled<T>(f: Store<T>, dest: string, m: SparseMatrix<T>, axis: Axis) returns (r: Outcome)
    requires Valid(m)
    modifies f
    ensures r.Fail? <==> dest in old(f.nodes)
    ensures r.Fail? ==> r.error == ValueError && f.nodes == old(f.nodes) && f.log == old(f.log)
    ensures r.Pass? ==> f.nodes == old(f.nodes)[dest := DenseNode(ToDense(m, f.fill))]
    ensures r.Pass? ==> f.log == old(f.log) + ([CreateOp(dest, m.rows, m.cols)] + FillOps(dest, ToDense(m, f.fill), axis))
  {
    r := f.CreateDataset(dest, m.rows, m.cols);
    if r.Pass? {
      Fill(f, dest, m, axis);
      assert f.nodes == old(f.nodes)[dest := DenseNode(ToDense(m, f.fill))];
    }
  }

  /** The closing swap: `del f[real_key]`, `f[real_key] = f[key]`, `del f[key]`. */
  method SwapIn<T>(f: Store<T>, key: string, tmp: string)
    requires key in f.nodes && tmp in f.nodes && key != tmp
    modifies f
    ensures f.nodes == (old(f.nodes) - {tmp})[key := old(f.nodes)[tmp]]
    ensures f.log == old(f.log) + [DeleteOp(key), LinkOp(key, tmp), DeleteOp(tmp)]
  {
    var r := f.Delete(key);
    r := f.Link(key, tmp);
    r := f.Delete(tmp);
    assert f.nodes == (old(f.nodes) - {tmp})[key := old(f.nodes)[tmp]];
  }

  /** `write_sparse_as_dense(f, key, value)`. It fails only in the aliased
      branch when the temporary key is taken, and then leaves the file as it
      was; otherwise the key holds the dense expansion of the value and the
      operations performed are exactly `OverwriteOps`. */
  method WriteSparseAsDense<T>(f: Store<T>, key: string, v: SparseValue<T>) returns (r: Outcome)
    requires Valid(v.matrix) && DuplicateFree(v.matrix)
    modifies f
    ensures r.Fail? <==> BranchOf(old(f.nodes), key, v) == Swap && TempKey.TempKey(key) in old(f.nodes)
    ensures r.Fail? ==> r.error == ValueError && f.nodes == old(f.nodes) && f.log == old(f.log)
    ensures r.Pass? ==> f.nodes == old(f.nodes)[key := DenseNode(ToDense(v.matrix, f.fill))]
    ensures r.Pass? ==> f.log == old(f.log) + OverwriteOps(old(f.nodes), key, v, f.fill)
  {
    ghost var start := f.nodes;
    ghost var full := ToDense(v.matrix, f.fill);
    var realKey: Option<string> := None;
    var dest := key;
    if f.Contains(key) {
      if v.OnDisk? && v.sameFile {
        realKey := Some(key);
        dest := TempKey.TempKey(key);
      } else {
        r := f.Delete(key);
      }
    }
    ghost var prepared := f.nodes;
    ghost var prelude := f.log;
    var m := v.matrix;
    r := CreateFilled(f, dest, m, CompressedAxis(v));
    if r.Fail? {
      return;
    }
    ghost var writes := [CreateOp(dest, m.rows, m.cols)] + FillOps(dest, full, CompressedAxis(v));
    OverwriteOpsBranches(start, key, v, f.fill, writes);
    if realKey.Some? {
      ghost var filled := f.log;
      SwapIn(f, key, dest);
      SwapResult(start, key, dest, DenseNode(full));
      AppendTo(old(f.log), writes, [DeleteOp(key), LinkOp(key, dest), DeleteOp(dest)]);
    } else if key in start {
      assert prelude == old(f.log) + [DeleteOp(key)];
      WipeResult(start, key, DenseNode(full));
      AppendTo(old(f.log), [DeleteOp(key)], writes);
    }
  }

  /** The operations of each branch, built from the create and fill writes. */
  lemma OverwriteOpsBranches<T>(nodes: Nodes<T>, key: string, v: SparseValue<T>, fill: T, writes: seq<Op<T>>)
    requires Valid(v.matrix)
    requires writes == [CreateOp(DestKey(nodes, key, v), v.matrix.rows, v.matrix.cols)]
      + FillOps(DestKey(nodes, key, v), ToDense(v.matrix, fill), CompressedAxis(v))
    ensures OverwriteOps(nodes, key, v, fill) ==
      match BranchOf(nodes, key, v)
      case Swap => writes + [DeleteOp(key), LinkOp(key, TempKey.TempKey(key)), DeleteOp(TempKey.TempKey(key))]
      case Wipe => [DeleteOp(key)] + writes
      case Fresh => writes
  {
  }

  /** The store after the swap. */
  lemma SwapResult<T>(nodes: Nodes<T>, key: string, tmp: string, node: Node<T>)
    requires key in nodes && tmp !in nodes
    ensures ((nodes[tmp := node]) - {tmp})[key := node] == nodes[key := node]
  {
  }

  /** The store after the wipe and the write. */
  lemma WipeResult<T>(nodes: Nodes<T>, key: string, node: Node<T>)
    ensures (nodes - {key})[key := node] == nodes[key := node]
  {
  }

  /** Appending two pieces one after the other. */
  lemma AppendTo<U>(log: seq<U>, a: seq<U>, b: seq<U>)
    ensures log + a + b == log + (a + b)
  {
  }
}
