/** The HDF5 file as the overwrite guard sees it: a flat map from path keys
    to nodes, with the four operations `write_sparse_as_dense` performs on
    it. `Apply` gives the meaning of one operation and `Run` of a sequence;
    the `Store` class performs them in place. */
module Store {
  import opened Errors
  import opened Matrix

  /** An object of the file: a dense dataset, or anything else (a group, a
      sparse matrix, a data frame), identified only by a tag. */
  datatype Node<T> = DenseNode(dense: Dense<T>) | OtherNode(tag: string)

  type Nodes<T> = map<string, Node<T>>

  /** The store operations: `create_dataset`, `del f[key]`, the window
      assignment `dset[idx] = chunk` and the hard link `f[dst] = f[src]`. */
  datatype Op<T> =
    | CreateOp(key: string, rows: nat, cols: nat)
    | DeleteOp(key: string)
    | WriteOp(key: string, axis: Axis, lo: nat, hi: nat, chunk: Dense<T>)
    | LinkOp(dst: string, src: string)

  /** The key an operation changes. */
  function Target<T>(op: Op<T>): string {
    match op
    case CreateOp(k, _, _) => k
    case DeleteOp(k) => k
    case WriteOp(k, _, _, _, _) => k
    case LinkOp(dst, _) => dst
  }

  /** One operation on the store. A new dataset is filled with `fill`;
      creating or linking onto an existing name, deleting or linking from a
      missing one, and a write that does not fit a dense dataset fail. */
  function Apply<T>(nodes: Nodes<T>, op: Op<T>, fill: T): (r: Result<Nodes<T>>)
    ensures r.Success? ==> (Target(op) in r.value <==> !op.DeleteOp?)
  {
    match op
    case CreateOp(k, rows, cols) =>
      if k in nodes then Failure(ValueError) else Success(nodes[k := DenseNode(Zeros(rows, cols, fill))])
    case DeleteOp(k) =>
      if k in nodes then Success(nodes - {k}) else Failure(KeyError)
    case WriteOp(k, axis, lo, hi, chunk) =>
      if k in nodes && nodes[k].DenseNode? && Fits(nodes[k].dense, axis, lo, hi, chunk)
      then Success(nodes[k := DenseNode(Assign(nodes[k].dense, axis, lo, hi, chunk))])
      else Failure(TypeError)
    case LinkOp(dst, src) =>
      if src !in nodes then Failure(KeyError)
      else if dst in nodes then Failure(OSError)
      else Success(nodes[dst := nodes[src]])
  }

  /** No operation of `ops` targets `k`. */
  predicate Untouched<T>(ops: seq<Op<T>>, k: string) {
    forall j | 0 <= j < |ops| :: Target(ops[j]) != k
  }

  /** The operations in order, stopping at the first failure. */
  function Run<T>(nodes: Nodes<T>, ops: seq<Op<T>>, fill: T): (r: Result<Nodes<T>>)
    decreases |ops|
  {
    if ops == [] then Success(nodes)
    else
      match Apply(nodes, ops[0], fill)
      case Failure(e) => Failure(e)
      case Success(next) => Run(next, ops[1..], fill)
  }

  /** A key that no operation of a successful run targets keeps its node. */
  lemma {:induction false} RunFrame<T>(nodes: Nodes<T>, ops: seq<Op<T>>, fill: T, k: string)
    requires Run(nodes, ops, fill).Success? && Untouched(ops, k)
    ensures k in Run(nodes, ops, fill).value <==> k in nodes
    ensures k in nodes ==> Run(nodes, ops, fill).value[k] == nodes[k]
    decreases |ops|
  {
    if ops != [] {
      var next := Apply(nodes, ops[0], fill).value;
      assert Target(ops[0]) != k;
      ApplyFrame(nodes, ops[0], fill, k);
      assert forall j | 0 <= j < |ops| - 1 :: ops[1..][j] == ops[j + 1];
      RunFrame(next, ops[1..], fill, k);
    }
  }

  /** An operation leaves every key but its target as it was. */
  lemma ApplyFrame<T>(nodes: Nodes<T>, op: Op<T>, fill: T, k: string)
    requires Apply(nodes, op, fill).Success? && k != Target(op)
    ensures k in Apply(nodes, op, fill).value <==> k in nodes
    ensures k in nodes ==> Apply(nodes, op, fill).value[k] == nodes[k]
  {
  }

  /** Running two sequences one after the other is running their concatenation. */
  lemma {:induction false} RunAppend<T>(nodes: Nodes<T>, a: seq<Op<T>>, b: seq<Op<T>>, fill: T)
    ensures Run(nodes, a + b, fill) ==
      match Run(nodes, a, fill)
      case Failure(e) => Failure(e)
      case Success(next) => Run(next, b, fill)
    decreases |a|
  {
    if a != [] {
      assert (a + b)[0] == a[0] && (a + b)[1..] == a[1..] + b;
      match Apply(nodes, a[0], fill)
      case Failure(e) =>
      case Success(next) => RunAppend(next, a[1..], b, fill);
    } else {
      assert a + b == b;
    }
  }

  /** Running one more operation after a successful prefix. */
  lemma RunSnoc<T>(nodes: Nodes<T>, ops: seq<Op<T>>, op: Op<T>, fill: T, mid: Nodes<T>)
    requires Run(nodes, ops, fill) == Success(mid)
    ensures Run(nodes, ops + [op], fill) == Apply(mid, op, fill)
  {
    RunAppend(nodes, ops, [op], fill);
    match Apply(mid, op, fill)
    case Failure(e) =>
    case Success(next) => assert Run(next, [], fill) == Success(next);
  }

  /** The open file. `log` records the operations performed so far. */
  class Store<T> {
    var nodes: Nodes<T>
    ghost var log: seq<Op<T>>
    /** The fill value of new datasets. */
    const fill: T

    constructor(initial: Nodes<T>, fill: T)
      ensures nodes == initial && log == [] && this.fill == fill
    {
      nodes := initial;
      log := [];
      this.fill := fill;
    }

    /** `key in f` */
    predicate Contains(key: string)
      reads this
    {
      key in nodes
    }

    /** `f.create_dataset(key, shape=(rows, cols))` */
    method CreateDataset(key: string, rows: nat, cols: nat) returns (r: Outcome)
      modifies this
      ensures r == (if key in old(nodes) then Fail(ValueError) else Pass)
      ensures r.Pass? ==> Success(nodes) == Apply(old(nodes), CreateOp(key, rows, cols), fill)
      ensures r.Pass? ==> log == old(log) + [CreateOp(key, rows, cols)]
      ensures r.Fail? ==> nodes == old(nodes) && log == old(log)
    {
      if key in nodes {
        r := Fail(ValueError);
      } else {
        nodes := nodes[key := DenseNode(Zeros(rows, cols, fill))];
        log := log + [CreateOp(key, rows, cols)];
        r := Pass;
      }
    }

    /** `del f[key]` */
    method Delete(key: string) returns (r: Outcome)
      modifies this
      ensures r == (if key in old(nodes) then Pass else Fail(KeyError))
      ensures r.Pass? ==> Success(nodes) == Apply(old(nodes), DeleteOp(key), fill)
      ensures r.Pass? ==> log == old(log) + [DeleteOp(key)]
      ensures r.Fail? ==> nodes == old(nodes) && log == old(log)
    {
      if key in nodes {
        nodes := nodes - {key};
        log := log + [DeleteOp(key)];
        r := Pass;
      } else {
        r := Fail(KeyError);
      }
    }

    /** `dset[idx] = chunk` for the window `[lo, hi)` along `axis` of the
        dataset at `key`. */
    method WriteWindow(key: string, axis: Axis, lo: nat, hi: nat, chunk: Dense<T>) returns (r: Outcome)
      modifies this
      ensures r.Pass? <==> Apply(old(nodes), WriteOp(key, axis, lo, hi, chunk), fill).Success?
      ensures r.Pass? ==> Success(nodes) == Apply(old(nodes), WriteOp(key, axis, lo, hi, chunk), fill)
      ensures r.Pass? ==> log == old(log) + [WriteOp(key, axis, lo, hi, chunk)]
      ensures r.Fail? ==> r == Fail(TypeError) && nodes == old(nodes) && log == old(log)
    {
      if key in nodes && nodes[key].DenseNode? && Fits(nodes[key].dense, axis, lo, hi, chunk) {
        nodes := nodes[key := DenseNode(Assign(nodes[key].dense, axis, lo, hi, chunk))];
        log := log + [WriteOp(key, axis, lo, hi, chunk)];
        r := Pass;
      } else {
        r := Fail(TypeError);
      }
    }

    /** `f[dst] = f[src]`: a second name for the same object. */
    method Link(dst: string, src: string) returns (r: Outcome)
      modifies this
      ensures r.Pass? <==> src in old(nodes) && dst !in old(nodes)
      ensures r.Pass? ==> Success(nodes) == Apply(old(nodes), LinkOp(dst, src), fill)
      ensures r.Pass? ==> log == old(log) + [LinkOp(dst, src)]
      ensures r.Fail? ==> nodes == old(nodes) && log == old(log)
    {
      if src !in nodes {
        r := Fail(KeyError);
      } else if dst in nodes {
        r := Fail(OSError);
      } else {
        nodes := nodes[dst := nodes[src]];
        log := log + [LinkOp(dst, src)];
        r := Pass;
      }
    }
  }
}
