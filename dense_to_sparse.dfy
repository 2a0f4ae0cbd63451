/** Reading a dense dataset as a compressed sparse matrix, chunk by chunk:
    `read_dense_as_sparse`, `read_dense_as_csr` and `read_dense_as_csc`. */
module DenseToSparse {
  import opened Errors
  import opened Matrix
  import opened ChunkPlanner

  /** The sparse matrix class a caller asks for (`as_sparse_fmt`,
      `sparse_format`): one of the two scipy classes, or anything else. */
  datatype FormatClass = CsrMatrixClass | CscMatrixClass | OtherClass(name: string)

  /** A non-empty list of valid matrices of format `fmt` with lanes of length
      `minor`: what `vstack`/`hstack` can join along the compressed axis. */
  predicate Stackable<T>(ms: seq<SparseMatrix<T>>, fmt: Format, minor: nat) {
    |ms| >= 1 && forall k | 0 <= k < |ms| :: Valid(ms[k]) && ms[k].format == fmt && Minor(ms[k]) == minor
  }

  /** Stacks the matrices along their compressed axis (`vstack` of CSR
      blocks, `hstack` of CSC blocks). */
  function Concat<T>(ms: seq<SparseMatrix<T>>, fmt: Format, minor: nat): (m: SparseMatrix<T>)
    requires Stackable(ms, fmt, minor)
    ensures Valid(m) && m.format == fmt && Minor(m) == minor
    decreases |ms|
  {
    if |ms| == 1 then ms[0]
    else
      var rest := Concat(ms[1..], fmt, minor);
      StackValid(ms[0], rest);
      Stack(ms[0], rest)
  }

  /** The compressed form of one chunk: the window `w` of `d` along the
      compressed axis of `fmt`, converted on its own. */
  function ChunkMatrix<T(==)>(d: Dense<T>, fmt: Format, w: Window, zero: T): (m: SparseMatrix<T>)
    requires WellShaped(d) && w.start <= w.stop <= Extent(d, AxisOf(fmt))
    ensures Valid(m) && m.format == fmt && Minor(m) == Extent(d, 1 - AxisOf(fmt))
  {
    FromDense(Slice(d, AxisOf(fmt), w.start, w.stop), fmt, zero)
  }

  /** The compressed chunks for the windows `ws`, in order. */
  function ChunkMatrices<T(==)>(d: Dense<T>, fmt: Format, ws: seq<Window>, zero: T): (ms: seq<SparseMatrix<T>>)
    requires WellShaped(d)
    requires forall k | 0 <= k < |ws| :: ws[k].start <= ws[k].stop <= Extent(d, AxisOf(fmt))
    ensures |ms| == |ws|
    ensures forall k | 0 <= k < |ws| :: ms[k] == ChunkMatrix(d, fmt, ws[k], zero)
  {
    seq(|ws|, k requires 0 <= k < |ws| => ChunkMatrix(d, fmt, ws[k], zero))
  }

  /** The converted chunks of a non-empty list of windows can be stacked. */
  lemma ChunkMatricesStackable<T>(d: Dense<T>, fmt: Format, ws: seq<Window>, zero: T)
    requires WellShaped(d) && |ws| >= 1
    requires forall k | 0 <= k < |ws| :: ws[k].start <= ws[k].stop <= Extent(d, AxisOf(fmt))
    ensures Stackable(ChunkMatrices(d, fmt, ws, zero), fmt, Extent(d, 1 - AxisOf(fmt)))
  {
  }

  /** The conversion of the runs `ws` of `lanes`, each on its own. */
  function LaneChunks<T(==)>(fmt: Format, lanes: seq<seq<T>>, ws: seq<Window>, minor: nat, zero: T): (ms: seq<SparseMatrix<T>>)
    requires Rect(lanes, minor)
    requires forall k | 0 <= k < |ws| :: ws[k].start <= ws[k].stop <= |lanes|
    ensures |ms| == |ws|
    ensures forall k | 0 <= k < |ws| :: ms[k] == FromLanes(fmt, lanes[ws[k].start..ws[k].stop], minor, zero)
    ensures |ws| >= 1 ==> Stackable(ms, fmt, minor)
  {
    seq(|ws|, k requires 0 <= k < |ws| => FromLanes(fmt, lanes[ws[k].start..ws[k].stop], minor, zero))
  }

  /** The lanes of a window along the compressed axis are a run of the lanes
      of the whole dataset. */
  lemma SliceLanes<T>(d: Dense<T>, fmt: Format, lo: nat, hi: nat)
    requires WellShaped(d) && lo <= hi <= Extent(d, AxisOf(fmt))
    ensures Lanes(Slice(d, AxisOf(fmt), lo, hi), fmt) == Lanes(d, fmt)[lo..hi]
  {
    if fmt == Csc {
      SliceCells(d, 1, lo, hi);
      var t := Lanes(Slice(d, 1, lo, hi), fmt);
      var u := Lanes(d, fmt)[lo..hi];
      forall i | 0 <= i < hi - lo ensures t[i] == u[i] {
        assert forall j | 0 <= j < d.rows :: t[i][j] == u[i][j];
      }
    }
  }

  /** Converting the dense chunks is converting the runs of lanes. */
  lemma ChunkMatricesLanes<T>(d: Dense<T>, fmt: Format, ws: seq<Window>, zero: T)
    requires WellShaped(d)
    requires forall k | 0 <= k < |ws| :: ws[k].start <= ws[k].stop <= Extent(d, AxisOf(fmt))
    ensures ChunkMatrices(d, fmt, ws, zero) == LaneChunks(fmt, Lanes(d, fmt), ws, Extent(d, 1 - AxisOf(fmt)), zero)
  {
    var ms := ChunkMatrices(d, fmt, ws, zero);
    var ls := LaneChunks(fmt, Lanes(d, fmt), ws, Extent(d, 1 - AxisOf(fmt)), zero);
    forall k | 0 <= k < |ws| ensures ms[k] == ls[k] {
      SliceLanes(d, fmt, ws[k].start, ws[k].stop);
    }
  }

  /** Dropping the first run drops the first converted chunk. */
  lemma LaneChunksTail<T>(fmt: Format, lanes: seq<seq<T>>, ws: seq<Window>, minor: nat, zero: T)
    requires Rect(lanes, minor) && |ws| >= 1
    requires forall k | 0 <= k < |ws| :: ws[k].start <= ws[k].stop <= |lanes|
    ensures LaneChunks(fmt, lanes, ws, minor, zero)[1..] == LaneChunks(fmt, lanes, ws[1..], minor, zero)
  {
  }

  /** Stacking the conversions of contiguous runs that reach the end of
      `lanes` is converting everything from the first run on in one go. */
  lemma {:induction false} ConcatLaneChunks<T>(fmt: Format, lanes: seq<seq<T>>, ws: seq<Window>, minor: nat, zero: T)
    requires Rect(lanes, minor) && |ws| >= 1
    requires forall k | 0 <= k < |ws| :: ws[k].start <= ws[k].stop <= |lanes|
    requires Contiguous(ws) && ws[|ws| - 1].stop == |lanes|
    ensures Concat(LaneChunks(fmt, lanes, ws, minor, zero), fmt, minor) == FromLanes(fmt, lanes[ws[0].start..], minor, zero)
    decreases |ws|
  {
    if |ws| == 1 {
      assert lanes[ws[0].start..ws[0].stop] == lanes[ws[0].start..];
    } else {
      assert Contiguous(ws[1..]) by {
        forall k | 0 <= k < |ws[1..]| - 1 ensures ws[1..][k].stop == ws[1..][k + 1].start {
          assert ws[k + 1].stop == ws[k + 2].start;
        }
      }
      ConcatLaneChunks(fmt, lanes, ws[1..], minor, zero);
      ConcatLaneChunksStep(fmt, lanes, ws, minor, zero);
    }
  }

  /** The inductive step of `ConcatLaneChunks`: the first run joins the
      stack of the others. */
  lemma ConcatLaneChunksStep<T>(fmt: Format, lanes: seq<seq<T>>, ws: seq<Window>, minor: nat, zero: T)
    requires Rect(lanes, minor) && |ws| >= 2
    requires forall k | 0 <= k < |ws| :: ws[k].start <= ws[k].stop <= |lanes|
    requires ws[0].stop == ws[1].start
    requires Concat(LaneChunks(fmt, lanes, ws[1..], minor, zero), fmt, minor) == FromLanes(fmt, lanes[ws[1].start..], minor, zero)
    ensures Concat(LaneChunks(fmt, lanes, ws, minor, zero), fmt, minor) == FromLanes(fmt, lanes[ws[0].start..], minor, zero)
  {
    var ms := LaneChunks(fmt, lanes, ws, minor, zero);
    var a, b := lanes[ws[0].start..ws[0].stop], lanes[ws[1].start..];
    LaneChunksTail(fmt, lanes, ws, minor, zero);
    RectSlice(lanes, minor, ws[0].start, ws[0].stop);
    RectSlice(lanes, minor, ws[1].start, |lanes|);
    var x, y := FromLanes(fmt, a, minor, zero), FromLanes(fmt, b, minor, zero);
    assert ms[0] == x;
    assert Concat(ms[1..], fmt, minor) == y;
    SplitSuffix(lanes, ws[0].start, ws[0].stop);
    FromLanesAppend(fmt, a, b, minor, zero);
    ConcatStep(ms, fmt, minor, x, y);
  }

  /** A run of rectangular lines is rectangular. */
  lemma RectSlice<T>(lanes: seq<seq<T>>, minor: nat, lo: nat, hi: nat)
    requires Rect(lanes, minor) && lo <= hi <= |lanes|
    ensures Rect(lanes[lo..hi], minor) && Rect(lanes[lo..], minor)
  {
  }

  /** A suffix splits at any point into two runs. */
  lemma SplitSuffix<U>(s: seq<U>, lo: nat, mid: nat)
    requires lo <= mid <= |s|
    ensures s[lo..] == s[lo..mid] + s[mid..]
  {
  }

  /** A stack of two or more matrices is the first on top of the rest. */
  lemma ConcatStep<T>(ms: seq<SparseMatrix<T>>, fmt: Format, minor: nat, x: SparseMatrix<T>, y: SparseMatrix<T>)
    requires Stackable(ms, fmt, minor) && |ms| >= 2
    requires ms[0] == x && Concat(ms[1..], fmt, minor) == y
    ensures Valid(x) && Valid(y) && x.format == y.format && Minor(x) == Minor(y)
    ensures Concat(ms, fmt, minor) == Stack(x, y)
  {
  }

  /** The result of `read_dense_as_csr` / `read_dense_as_csc` with chunk size
      `chunk`: the chunks cut by the planner, converted one at a time and
      stacked. */
  function ChunkedRead<T(==)>(d: Dense<T>, fmt: Format, chunk: nat, zero: T): (m: SparseMatrix<T>)
    requires WellShaped(d) && chunk >= 1
    ensures Valid(m) && m.format == fmt && Minor(m) == Extent(d, 1 - AxisOf(fmt))
  {
    var ws := Chunks(Extent(d, AxisOf(fmt)), chunk);
    ChunkMatricesStackable(d, fmt, ws, zero);
    Concat(ChunkMatrices(d, fmt, ws, zero), fmt, Extent(d, 1 - AxisOf(fmt)))
  }

  /** Chunked conversion equals whole conversion: stacking the converted
      chunks gives `csr_matrix(d)` / `csc_matrix(d)` for every chunk size. */
  lemma ChunkedConversion<T>(d: Dense<T>, fmt: Format, chunk: nat, zero: T)
    requires WellShaped(d) && chunk >= 1
    ensures ChunkedRead(d, fmt, chunk, zero) == FromDense(d, fmt, zero)
  {
    var ws := Chunks(Extent(d, AxisOf(fmt)), chunk);
    ChunksContiguous(Extent(d, AxisOf(fmt)), chunk);
    ChunkMatricesLanes(d, fmt, ws, zero);
    ConcatLaneChunks(fmt, Lanes(d, fmt), ws, Extent(d, 1 - AxisOf(fmt)), zero);
    assert Lanes(d, fmt)[0..] == Lanes(d, fmt);
  }

  /** Chunk-size invariance: two chunk sizes give the same matrix. */
  lemma ChunkSizeInvariant<T>(d: Dense<T>, fmt: Format, chunk1: nat, chunk2: nat, zero: T)
    requires WellShaped(d) && chunk1 >= 1 && chunk2 >= 1
    ensures ChunkedRead(d, fmt, chunk1, zero) == ChunkedRead(d, fmt, chunk2, zero)
  {
    ChunkedConversion(d, fmt, chunk1, zero);
    ChunkedConversion(d, fmt, chunk2, zero);
  }

  /** Appending the next element of `all` to a prefix of `all` gives the
      next prefix. */
  lemma PrefixSnoc<U>(prefix: seq<U>, all: seq<U>, x: U)
    requires |prefix| < |all| && prefix == all[..|prefix|] && x == all[|prefix|]
    ensures prefix + [x] == all[..|prefix| + 1]
  {
  }

  /** Appending the chunk read for window `i` to the first `i` chunks gives
      the first `i + 1`. */
  lemma NextChunk<T>(d: Dense<T>, fmt: Format, ws: seq<Window>, zero: T,
                     chunks: seq<SparseMatrix<T>>, prefix: seq<SparseMatrix<T>>, i: nat)
    requires WellShaped(d) && i < |ws|
    requires forall k | 0 <= k < |ws| :: ws[k].start <= ws[k].stop <= Extent(d, AxisOf(fmt))
    requires chunks == ChunkMatrices(d, fmt, ws, zero) && prefix == chunks[..i]
    ensures prefix + [FromDense(Slice(d, AxisOf(fmt), ws[i].start, ws[i].stop), fmt, zero)] == chunks[..i + 1]
  {
    PrefixSnoc(prefix, chunks, chunks[i]);
  }

  /** The stacked chunks are the whole conversion, which expands back to `d`. */
  lemma ChunkedReadResult<T>(d: Dense<T>, fmt: Format, chunk: nat, zero: T, ws: seq<Window>, ms: seq<SparseMatrix<T>>, minor: nat)
    requires WellShaped(d) && chunk >= 1 && minor == Extent(d, 1 - AxisOf(fmt))
    requires ws == Chunks(Extent(d, AxisOf(fmt)), chunk) && ms == ChunkMatrices(d, fmt, ws, zero)
    ensures Stackable(ms, fmt, minor)
    ensures Concat(ms, fmt, minor) == FromDense(d, fmt, zero)
    ensures ToDense(FromDense(d, fmt, zero), zero) == d
  {
    ChunkMatricesStackable(d, fmt, ws, zero);
    ChunkedConversion(d, fmt, chunk, zero);
    DenseRoundTrip(d, fmt, zero);
  }

  /** The loop shared by `read_dense_as_csr` and `read_dense_as_csc`: reads
      the window `windows[i]` of `dataset` along the compressed axis of `fmt`
      and converts it on its own, one window after the other. */
  method ConvertChunks<T(==)>(dataset: Dense<T>, fmt: Format, windows: seq<Window>, zero: T)
    returns (subMatrices: seq<SparseMatrix<T>>)
    requires WellShaped(dataset)
    requires forall k | 0 <= k < |windows| :: windows[k].start <= windows[k].stop <= Extent(dataset, AxisOf(fmt))
    ensures subMatrices == ChunkMatrices(dataset, fmt, windows, zero)
  {
    ghost var chunks := ChunkMatrices(dataset, fmt, windows, zero);
    subMatrices := [];
    for i := 0 to |windows|
      invariant subMatrices == chunks[..i]
    {
      var denseChunk := Slice(dataset, AxisOf(fmt), windows[i].start, windows[i].stop);
      var subMatrix := FromDense(denseChunk, fmt, zero);
      NextChunk(dataset, fmt, windows, zero, chunks, subMatrices, i);
      subMatrices := subMatrices + [subMatrix];
    }
    assert subMatrices == chunks;
  }

  /** `read_dense_as_csr`: converts row windows of `axisChunk` rows one at a
      time and stacks the pieces vertically; the planner refuses a chunk
      size below 1. */
  method ReadDenseAsCsr<T(==)>(dataset: Dense<T>, axisChunk: int, zero: T) returns (r: Result<SparseMatrix<T>>)
    requires WellShaped(dataset)
    ensures r.Failure? <==> axisChunk < 1
    ensures r.Failure? ==> r.error == ValueError
    ensures r.Success? ==> r.value == FromDense(dataset, Csr, zero) && ToDense(r.value, zero) == dataset
  {
    var planned := PlanChunks(dataset.rows, axisChunk);
    if planned.Failure? {
      return Failure(planned.error);
    }
    var windows := planned.value;
    var subMatrices := ConvertChunks(dataset, Csr, windows, zero);
    ChunkedReadResult(dataset, Csr, axisChunk, zero, windows, subMatrices, dataset.cols);
    r := Success(Concat(subMatrices, Csr, dataset.cols));
  }

  /** `read_dense_as_csc`: converts column windows of `axisChunk` columns one
      at a time and stacks the pieces horizontally; the planner refuses a
      chunk size below 1. */
  method ReadDenseAsCsc<T(==)>(dataset: Dense<T>, axisChunk: int, zero: T) returns (r: Result<SparseMatrix<T>>)
    requires WellShaped(dataset)
    ensures r.Failure? <==> axisChunk < 1
    ensures r.Failure? ==> r.error == ValueError
    ensures r.Success? ==> r.value == FromDense(dataset, Csc, zero) && ToDense(r.value, zero) == dataset
  {
    var planned := PlanChunks(dataset.cols, axisChunk);
    if planned.Failure? {
      return Failure(planned.error);
    }
    var windows := planned.value;
    var subMatrices := ConvertChunks(dataset, Csc, windows, zero);
    ChunkedReadResult(dataset, Csc, axisChunk, zero, windows, subMatrices, dataset.rows);
    r := Success(Concat(subMatrices, Csc, dataset.rows));
  }

  /** `read_dense_as_sparse`: dispatches on the requested class; any class
      other than `csr_matrix` and `csc_matrix` raises `ValueError` before the
      chunk size is looked at. */
  method ReadDenseAsSparse<T(==)>(dataset: Dense<T>, sparseFormat: FormatClass, axisChunk: int, zero: T)
    returns (r: Result<SparseMatrix<T>>)
    requires WellShaped(dataset)
    ensures sparseFormat.OtherClass? ==> r == Failure(ValueError)
    ensures !sparseFormat.OtherClass? && axisChunk < 1 ==> r == Failure(ValueError)
    ensures r.Success? <==> !sparseFormat.OtherClass? && axisChunk >= 1
    ensures r.Success? && sparseFormat == CsrMatrixClass ==> r.value == FromDense(dataset, Csr, zero)
    ensures r.Success? && sparseFormat == CscMatrixClass ==> r.value == FromDense(dataset, Csc, zero)
    ensures r.Success? ==> ToDense(r.value, zero) == dataset
  {
    if sparseFormat == CsrMatrixClass {
      r := ReadDenseAsCsr(dataset, axisChunk, zero);
    } else if sparseFormat == CscMatrixClass {
      r := ReadDenseAsCsc(dataset, axisChunk, zero);
    } else {
      r := Failure(ValueError);
    }
  }
}
