/** Dense 2-D datasets and compressed sparse matrices (CSR and CSC), over an
    element type with a distinguished zero, and the conversions between them
    that `scipy.sparse` performs for the chunked readers and writers. */
module Matrix {

  /** Axis 0 runs over rows, axis 1 over columns. */
  type Axis = a: nat | a < 2

  /** A dense dataset of `rows` rows, each of `cols` elements. The shape is
      kept apart from the cells so that an empty dataset still has a width. */
  datatype Dense<T> = Dense(rows: nat, cols: nat, cells: seq<seq<T>>)

  /** Every line of `cells` has `width` elements. */
  predicate Rect<T>(cells: seq<seq<T>>, width: nat) {
    forall r | 0 <= r < |cells| :: |cells[r]| == width
  }

  predicate WellShaped<T>(d: Dense<T>) {
    |d.cells| == d.rows && Rect(d.cells, d.cols)
  }

  /** The length of `d` along `axis`. */
  function Extent<T>(d: Dense<T>, axis: Axis): nat {
    if axis == 0 then d.rows else d.cols
  }

  /** A freshly created dataset: every cell holds the fill value `zero`. */
  function Zeros<T>(rows: nat, cols: nat, zero: T): (d: Dense<T>)
    ensures WellShaped(d) && d.rows == rows && d.cols == cols
    ensures forall r, c | 0 <= r < rows && 0 <= c < cols :: d.cells[r][c] == zero
  {
    Dense(rows, cols, seq(rows, _ => seq(cols, _ => zero)))
  }

  /** The window `[lo, hi)` of `d` along `axis`, the other axis whole
      (`dataset[idx]` for a chunk index `idx`). */
  function Slice<T>(d: Dense<T>, axis: Axis, lo: nat, hi: nat): (s: Dense<T>)
    requires WellShaped(d) && lo <= hi <= Extent(d, axis)
    ensures WellShaped(s)
    ensures Extent(s, axis) == hi - lo && Extent(s, 1 - axis) == Extent(d, 1 - axis)
  {
    if axis == 0 then Dense(hi - lo, d.cols, d.cells[lo..hi])
    else Dense(d.rows, hi - lo, seq(d.rows, r requires 0 <= r < d.rows => d.cells[r][lo..hi]))
  }

  /** Cell `(r, c)` of a window is the cell of `d` offset by `lo` along `axis`. */
  lemma SliceCells<T>(d: Dense<T>, axis: Axis, lo: nat, hi: nat)
    requires WellShaped(d) && lo <= hi <= Extent(d, axis)
    ensures var s := Slice(d, axis, lo, hi);
      forall r, c | 0 <= r < s.rows && 0 <= c < s.cols ::
        s.cells[r][c] == if axis == 0 then d.cells[lo + r][c] else d.cells[r][lo + c]
  {
  }

  /** `chunk` has exactly the shape of the window `[lo, hi)` of `d` along `axis`. */
  predicate Fits<T>(d: Dense<T>, axis: Axis, lo: nat, hi: nat, chunk: Dense<T>) {
    && WellShaped(d) && WellShaped(chunk) && lo <= hi <= Extent(d, axis)
    && Extent(chunk, axis) == hi - lo && Extent(chunk, 1 - axis) == Extent(d, 1 - axis)
  }

  /** `d` with the window `[lo, hi)` along `axis` overwritten by `chunk`
      (`dset[idx] = chunk`). */
  function Assign<T>(d: Dense<T>, axis: Axis, lo: nat, hi: nat, chunk: Dense<T>): (a: Dense<T>)
    requires Fits(d, axis, lo, hi, chunk)
    ensures WellShaped(a) && a.rows == d.rows && a.cols == d.cols
    ensures forall r, c | 0 <= r < a.rows && 0 <= c < a.cols ::
      a.cells[r][c] ==
        if axis == 0 then (if lo <= r < hi then chunk.cells[r - lo][c] else d.cells[r][c])
        else (if lo <= c < hi then chunk.cells[r][c - lo] else d.cells[r][c])
  {
    if axis == 0 then Dense(d.rows, d.cols, d.cells[..lo] + chunk.cells + d.cells[hi..])
    else Dense(d.rows, d.cols,
      seq(d.rows, r requires 0 <= r < d.rows => d.cells[r][..lo] + chunk.cells[r] + d.cells[r][hi..]))
  }

  /** The dataset whose cells before position `upto` along `axis` are those of
      `target` and whose other cells still hold `zero`: the state of a
      destination after the windows covering `[0, upto)` have been written. */
  function PartlyFilled<T>(target: Dense<T>, axis: Axis, upto: nat, zero: T): (p: Dense<T>)
    requires WellShaped(target)
    ensures WellShaped(p) && p.rows == target.rows && p.cols == target.cols
  {
    Dense(target.rows, target.cols,
      seq(target.rows, r requires 0 <= r < target.rows =>
        seq(target.cols, c requires 0 <= c < target.cols =>
          if (if axis == 0 then r else c) < upto then target.cells[r][c] else zero)))
  }

  /** Two well-shaped datasets with the same shape and the same cells are equal. */
  lemma {:induction false} DenseExt<T>(a: Dense<T>, b: Dense<T>)
    requires WellShaped(a) && WellShaped(b) && a.rows == b.rows && a.cols == b.cols
    requires forall r, c | 0 <= r < a.rows && 0 <= c < a.cols :: a.cells[r][c] == b.cells[r][c]
    ensures a == b
  {
    forall r | 0 <= r < a.rows ensures a.cells[r] == b.cells[r] {
      assert forall c | 0 <= c < a.cols :: a.cells[r][c] == b.cells[r][c];
    }
  }

  /** Before any window is written the destination is all fill value. */
  lemma FilledNothing<T>(target: Dense<T>, axis: Axis, zero: T)
    requires WellShaped(target)
    ensures PartlyFilled(target, axis, 0, zero) == Zeros(target.rows, target.cols, zero)
  {
    DenseExt(PartlyFilled(target, axis, 0, zero), Zeros(target.rows, target.cols, zero));
  }

  /** Once the whole axis is covered the destination equals the target. */
  lemma FilledEverything<T>(target: Dense<T>, axis: Axis, zero: T)
    requires WellShaped(target)
    ensures PartlyFilled(target, axis, Extent(target, axis), zero) == target
  {
    DenseExt(PartlyFilled(target, axis, Extent(target, axis), zero), target);
  }

  /** Writing the next window of the target extends the filled region. */
  lemma FillStep<T>(target: Dense<T>, axis: Axis, lo: nat, hi: nat, zero: T)
    requires WellShaped(target) && lo <= hi <= Extent(target, axis)
    ensures Fits(PartlyFilled(target, axis, lo, zero), axis, lo, hi, Slice(target, axis, lo, hi))
    ensures Assign(PartlyFilled(target, axis, lo, zero), axis, lo, hi, Slice(target, axis, lo, hi))
         == PartlyFilled(target, axis, hi, zero)
  {
    SliceCells(target, axis, lo, hi);
    DenseExt(Assign(PartlyFilled(target, axis, lo, zero), axis, lo, hi, Slice(target, axis, lo, hi)),
             PartlyFilled(target, axis, hi, zero));
  }

  // ---------------------------------------------------------------------
  // Compressed sparse matrices

  datatype Format = Csr | Csc

  /** A compressed sparse matrix: `data` and `indices` hold the stored entries
      lane after lane, and lane `k` owns positions `indptr[k] .. indptr[k+1]`.
      Lanes are rows for CSR and columns for CSC. */
  datatype SparseMatrix<T> = SparseMatrix(
    format: Format, rows: nat, cols: nat,
    data: seq<T>, indices: seq<nat>, indptr: seq<nat>)

  /** The number of lanes (the compressed dimension). */
  function Major<T>(m: SparseMatrix<T>): nat {
    if m.format == Csr then m.rows else m.cols
  }

  /** The length of each lane. */
  function Minor<T>(m: SparseMatrix<T>): nat {
    if m.format == Csr then m.cols else m.rows
  }

  /** The axis along which a matrix of this format is compressed. */
  function AxisOf(fmt: Format): Axis {
    if fmt == Csr then 0 else 1
  }

  /** The structural invariant of the three component arrays. */
  predicate Valid<T>(m: SparseMatrix<T>) {
    && |m.indptr| == Major(m) + 1
    && m.indptr[0] == 0
    && (forall k | 0 <= k < Major(m) :: m.indptr[k] <= m.indptr[k + 1])
    && (forall k | 0 <= k <= Major(m) :: m.indptr[k] <= |m.data|)
    && m.indptr[Major(m)] == |m.data| == |m.indices|
    && (forall j | 0 <= j < |m.indices| :: m.indices[j] < Minor(m))
  }

  /** The stored entries of one lane: values and their positions in the lane. */
  datatype Entries<T> = Entries(values: seq<T>, positions: seq<nat>)

  /** `e` lists exactly the nonzero elements of `lane` with their positions,
      in increasing position. */
  predicate IsNonzerosOf<T(==)>(e: Entries<T>, lane: seq<T>, zero: T) {
    && |e.values| == |e.positions|
    && (forall k | 0 <= k < |e.positions| ::
          e.positions[k] < |lane| && lane[e.positions[k]] == e.values[k] && e.values[k] != zero)
    && (forall k, l | 0 <= k < l < |e.positions| :: e.positions[k] < e.positions[l])
    && (forall j | 0 <= j < |lane| && lane[j] != zero :: j in e.positions)
  }

  /** The nonzero entries of `lane` (what `csr_matrix` stores for one row).
      `NonzerosSpec` states that these are exactly the nonzero elements. */
  function Nonzeros<T(==)>(lane: seq<T>, zero: T): (e: Entries<T>)
    ensures |e.values| == |e.positions|
    ensures forall k | 0 <= k < |e.positions| :: e.positions[k] < |lane|
    decreases |lane|
  {
    if lane == [] then Entries([], [])
    else
      var n := |lane| - 1;
      var e := Nonzeros(lane[..n], zero);
      if lane[n] != zero then Entries(e.values + [lane[n]], e.positions + [n]) else e
  }

  /** `Nonzeros` lists exactly the nonzero elements of the lane, in order. */
  lemma NonzerosSpec<T>(lane: seq<T>, zero: T)
    ensures IsNonzerosOf(Nonzeros(lane, zero), lane, zero)
  {
    NonzerosStored(lane, zero);
    NonzerosIncreasing(lane, zero);
    NonzerosComplete(lane, zero);
  }

  /** Every stored entry is the nonzero element at its position. */
  lemma {:induction false} NonzerosStored<T>(lane: seq<T>, zero: T)
    ensures forall k | 0 <= k < |Nonzeros(lane, zero).positions| ::
      lane[Nonzeros(lane, zero).positions[k]] == Nonzeros(lane, zero).values[k] && Nonzeros(lane, zero).values[k] != zero
    decreases |lane|
  {
    if lane != [] {
      var n := |lane| - 1;
      var e, r := Nonzeros(lane[..n], zero), Nonzeros(lane, zero);
      NonzerosStored(lane[..n], zero);
      forall k | 0 <= k < |r.positions| ensures lane[r.positions[k]] == r.values[k] && r.values[k] != zero {
        if k < |e.positions| {
          assert r.positions[k] == e.positions[k] && r.values[k] == e.values[k];
          assert lane[..n][e.positions[k]] == lane[e.positions[k]];
        }
      }
    }
  }

  /** The stored positions increase strictly. */
  lemma {:induction false} NonzerosIncreasing<T>(lane: seq<T>, zero: T)
    ensures forall k, l | 0 <= k < l < |Nonzeros(lane, zero).positions| ::
      Nonzeros(lane, zero).positions[k] < Nonzeros(lane, zero).positions[l]
    decreases |lane|
  {
    if lane != [] {
      var n := |lane| - 1;
      var e, r := Nonzeros(lane[..n], zero), Nonzeros(lane, zero);
      NonzerosIncreasing(lane[..n], zero);
      forall k, l | 0 <= k < l < |r.positions| ensures r.positions[k] < r.positions[l] {
        if l < |e.positions| {
          assert r.positions[k] == e.positions[k] && r.positions[l] == e.positions[l];
        } else {
          assert r.positions[k] == e.positions[k] < n == r.positions[l];
        }
      }
    }
  }

  /** Every nonzero element is stored. */
  lemma {:induction false} NonzerosComplete<T>(lane: seq<T>, zero: T)
    ensures forall j | 0 <= j < |lane| && lane[j] != zero :: j in Nonzeros(lane, zero).positions
    decreases |lane|
  {
    if lane != [] {
      var n := |lane| - 1;
      NonzerosComplete(lane[..n], zero);
      assert forall j | 0 <= j < n :: lane[..n][j] == lane[j];
    }
  }

  /** The element at position `j` of a lane with the given stored entries:
      the value of the last entry stored at `j`, or `zero` if none is. In
      canonical format at most one entry is stored at `j`. */
  function Lookup<T>(e: Entries<T>, j: nat, zero: T): (r: T)
    requires |e.values| == |e.positions|
    ensures r == zero || r in e.values
    decreases |e.positions|
  {
    if e.positions == [] then zero
    else
      var n := |e.positions| - 1;
      if e.positions[n] == j then e.values[n]
      else Lookup(Entries(e.values[..n], e.positions[..n]), j, zero)
  }

  /** The dense lane of length `width` holding the stored entries `e`. */
  function Expand<T>(e: Entries<T>, width: nat, zero: T): (lane: seq<T>)
    requires |e.values| == |e.positions|
    ensures |lane| == width
    ensures forall j | 0 <= j < width :: lane[j] == zero || lane[j] in e.values
  {
    seq(width, j requires 0 <= j < width => Lookup(e, j, zero))
  }

  /** A position held by an entry of a lane where no position is stored
      twice reads back that entry's value, in whatever order the positions
      are stored. */
  lemma {:induction false} LookupStored<T>(e: Entries<T>, k: nat, zero: T)
    requires |e.values| == |e.positions| && k < |e.positions|
    requires DistinctPositions(e.positions)
    ensures Lookup(e, e.positions[k], zero) == e.values[k]
    decreases |e.positions|
  {
    var n := |e.positions| - 1;
    if k < n {
      assert e.positions[k] != e.positions[n];
      var prefix := Entries(e.values[..n], e.positions[..n]);
      assert forall a | 0 <= a < n :: prefix.positions[a] == e.positions[a];
      LookupStored(prefix, k, zero);
    }
  }

  /** A position that no entry holds reads back as `zero`. */
  lemma {:induction false} LookupAbsent<T>(e: Entries<T>, j: nat, zero: T)
    requires |e.values| == |e.positions| && j !in e.positions
    ensures Lookup(e, j, zero) == zero
    decreases |e.positions|
  {
    if e.positions != [] {
      var n := |e.positions| - 1;
      assert e.positions == e.positions[..n] + [e.positions[n]];
      LookupAbsent(Entries(e.values[..n], e.positions[..n]), j, zero);
    }
  }

  /** Expanding the nonzero entries of a lane gives the lane back. */
  lemma ExpandNonzeros<T>(lane: seq<T>, zero: T)
    ensures Expand(Nonzeros(lane, zero), |lane|, zero) == lane
  {
    var e := Nonzeros(lane, zero);
    NonzerosSpec(lane, zero);
    forall j | 0 <= j < |lane| ensures Lookup(e, j, zero) == lane[j] {
      LookupNonzeros(lane, e, j, zero);
    }
  }

  lemma LookupNonzeros<T>(lane: seq<T>, e: Entries<T>, j: nat, zero: T)
    requires IsNonzerosOf(e, lane, zero) && j < |lane|
    ensures Lookup(e, j, zero) == lane[j]
  {
    if lane[j] != zero {
      assert j in e.positions;
      var k :| 0 <= k < |e.positions| && e.positions[k] == j;
      LookupStored(e, k, zero);
    } else {
      assert forall k | 0 <= k < |e.positions| :: e.positions[k] != j;
      LookupAbsent(e, j, zero);
    }
  }

  /** The shape of a matrix of format `fmt` with `major` lanes of length `minor`. */
  function RowsOf(fmt: Format, major: nat, minor: nat): nat {
    if fmt == Csr then major else minor
  }

  function ColsOf(fmt: Format, major: nat, minor: nat): nat {
    if fmt == Csr then minor else major
  }

  /** The stored entries of lane `k` of `m`. */
  function LaneEntries<T>(m: SparseMatrix<T>, k: nat): (e: Entries<T>)
    requires Valid(m) && k < Major(m)
    ensures |e.values| == |e.positions|
  {
    Entries(m.data[m.indptr[k]..m.indptr[k + 1]], m.indices[m.indptr[k]..m.indptr[k + 1]])
  }

  /** Positions that increase strictly, so none is stored twice. */
  predicate StrictlyIncreasing(p: seq<nat>) {
    forall a, b | 0 <= a < b < |p| :: p[a] < p[b]
  }

  /** No position is stored twice; the order is free. */
  predicate DistinctPositions(p: seq<nat>) {
    forall a, b | 0 <= a < b < |p| :: p[a] != p[b]
  }

  /** scipy's canonical format: within every lane the stored positions
      increase strictly (sorted indices, no duplicates). */
  predicate HasCanonicalFormat<T>(m: SparseMatrix<T>)
    requires Valid(m)
  {
    forall k | 0 <= k < Major(m) :: StrictlyIncreasing(LaneEntries(m, k).positions)
  }

  /** No lane stores a position twice; the positions of a lane may come in
      any order. `toarray()` adds up entries stored twice at one position; a
      generic element type has no addition, so the model gives a dense
      meaning only to duplicate-free matrices, where there is nothing to
      add. */
  predicate DuplicateFree<T>(m: SparseMatrix<T>)
    requires Valid(m)
  {
    forall k | 0 <= k < Major(m) :: DistinctPositions(LaneEntries(m, k).positions)
  }

  /** `m` with one more lane, storing the entries `e`. */
  function AppendLane<T>(m: SparseMatrix<T>, e: Entries<T>): (r: SparseMatrix<T>)
    requires Valid(m) && |e.values| == |e.positions|
    requires forall j | 0 <= j < |e.positions| :: e.positions[j] < Minor(m)
    ensures Valid(r) && r.format == m.format && Major(r) == Major(m) + 1 && Minor(r) == Minor(m)
    ensures LaneEntries(r, Major(m)) == e
    ensures forall k | 0 <= k < Major(m) :: LaneEntries(r, k) == LaneEntries(m, k)
  {
    var n := Major(m);
    var r := SparseMatrix(m.format, RowsOf(m.format, n + 1, Minor(m)), ColsOf(m.format, n + 1, Minor(m)),
      m.data + e.values, m.indices + e.positions, m.indptr + [|m.data| + |e.values|]);
    AppendedValid(m, e, r);
    AppendedLanes(m, e, r);
    r
  }

  /** The arrays of `r` are those of `m` followed by the entries `e` as one more lane. */
  ghost predicate Appended<T>(m: SparseMatrix<T>, e: Entries<T>, r: SparseMatrix<T>) {
    && r.format == m.format && Major(r) == Major(m) + 1 && Minor(r) == Minor(m)
    && r.data == m.data + e.values && r.indices == m.indices + e.positions
    && r.indptr == m.indptr + [|m.data| + |e.values|]
  }

  lemma AppendedValid<T>(m: SparseMatrix<T>, e: Entries<T>, r: SparseMatrix<T>)
    requires Valid(m) && |e.values| == |e.positions|
    requires forall j | 0 <= j < |e.positions| :: e.positions[j] < Minor(m)
    requires Appended(m, e, r)
    ensures Valid(r)
  {
    var n := Major(m);
    assert forall k | 0 <= k <= n :: r.indptr[k] == m.indptr[k];
    forall j | 0 <= j < |r.indices| ensures r.indices[j] < Minor(r) {
      ConcatAt(m.indices, e.positions, j);
    }
  }

  lemma AppendedLanes<T>(m: SparseMatrix<T>, e: Entries<T>, r: SparseMatrix<T>)
    requires Valid(m) && Valid(r) && |e.values| == |e.positions| && Appended(m, e, r)
    ensures LaneEntries(r, Major(m)) == e
    ensures forall k | 0 <= k < Major(m) :: LaneEntries(r, k) == LaneEntries(m, k)
  {
    var n := Major(m);
    forall k | 0 <= k < n ensures LaneEntries(r, k) == LaneEntries(m, k) {
      AppendLaneKeeps(m, e, r, k);
    }
    assert r.indptr[n] == |m.data| && r.indptr[n + 1] == |m.data| + |e.values|;
    SliceOfConcat(r.data, m.data, e.values, 0, |e.values|, |m.data|, |m.data| + |e.values|);
    SliceOfConcat(r.indices, m.indices, e.positions, 0, |e.positions|, |m.data|, |m.data| + |e.values|);
  }

  /** The lanes of `m` survive appending entries to its arrays. */
  lemma AppendLaneKeeps<T>(m: SparseMatrix<T>, e: Entries<T>, r: SparseMatrix<T>, k: nat)
    requires Valid(m) && Valid(r) && k < Major(m) && Appended(m, e, r)
    ensures LaneEntries(r, k) == LaneEntries(m, k)
  {
    assert r.indptr[k] == m.indptr[k] && r.indptr[k + 1] == m.indptr[k + 1];
    assert m.indptr[k + 1] <= |m.data|;
    assert r.data[r.indptr[k]..r.indptr[k + 1]] == m.data[m.indptr[k]..m.indptr[k + 1]];
    assert r.indices[r.indptr[k]..r.indptr[k + 1]] == m.indices[m.indptr[k]..m.indptr[k + 1]];
  }

  /** The compressed matrix of format `fmt` with no lanes of length `minor`. */
  function NoLanes<T>(fmt: Format, minor: nat): (m: SparseMatrix<T>)
    ensures Valid(m) && m.format == fmt && Major(m) == 0 && Minor(m) == minor
  {
    SparseMatrix(fmt, RowsOf(fmt, 0, minor), ColsOf(fmt, 0, minor), [], [], [0])
  }

  /** The compressed matrix of format `fmt` whose lanes are `lanes`, each of
      length `minor`: every lane stores exactly its nonzero entries. */
  function FromLanes<T(==)>(fmt: Format, lanes: seq<seq<T>>, minor: nat, zero: T): (m: SparseMatrix<T>)
    requires Rect(lanes, minor)
    ensures m.format == fmt && Major(m) == |lanes| && Minor(m) == minor && Valid(m)
    ensures forall k | 0 <= k < |lanes| :: LaneEntries(m, k) == Nonzeros(lanes[k], zero)
    decreases |lanes|
  {
    if lanes == [] then NoLanes(fmt, minor)
    else
      var n := |lanes| - 1;
      assert forall k | 0 <= k < n :: lanes[..n][k] == lanes[k];
      AppendLane(FromLanes(fmt, lanes[..n], minor, zero), Nonzeros(lanes[n], zero))
  }

  /** The expanded lanes of `m`. */
  function ToLanes<T>(m: SparseMatrix<T>, zero: T): (lanes: seq<seq<T>>)
    requires Valid(m)
    ensures |lanes| == Major(m) && Rect(lanes, Minor(m))
  {
    seq(Major(m), k requires 0 <= k < Major(m) => Expand(LaneEntries(m, k), Minor(m), zero))
  }

  /** The transpose of `|lanes|` lines of length `width`. */
  function Transpose<T>(lanes: seq<seq<T>>, width: nat): (t: seq<seq<T>>)
    requires Rect(lanes, width)
    ensures |t| == width && Rect(t, |lanes|)
    ensures forall i, j | 0 <= i < width && 0 <= j < |lanes| :: t[i][j] == lanes[j][i]
  {
    seq(width, i requires 0 <= i < width => seq(|lanes|, j requires 0 <= j < |lanes| => lanes[j][i]))
  }

  lemma TransposeTwice<T>(cells: seq<seq<T>>, width: nat)
    requires Rect(cells, width)
    ensures Transpose(Transpose(cells, width), |cells|) == cells
  {
    var t := Transpose(Transpose(cells, width), |cells|);
    forall r | 0 <= r < |cells| ensures t[r] == cells[r] {
      assert forall c | 0 <= c < width :: t[r][c] == cells[r][c];
    }
  }

  /** The lanes of a dense dataset as seen by format `fmt`: its rows for CSR,
      its columns for CSC. */
  function Lanes<T>(d: Dense<T>, fmt: Format): (lanes: seq<seq<T>>)
    requires WellShaped(d)
    ensures |lanes| == Extent(d, AxisOf(fmt)) && Rect(lanes, Extent(d, 1 - AxisOf(fmt)))
  {
    if fmt == Csr then d.cells else Transpose(d.cells, d.cols)
  }

  /** `sparse.csr_matrix(d)` / `sparse.csc_matrix(d)`: the compressed form of
      a dense dataset, storing its nonzero elements lane by lane. */
  function FromDense<T(==)>(d: Dense<T>, fmt: Format, zero: T): (m: SparseMatrix<T>)
    requires WellShaped(d)
    ensures Valid(m) && m.format == fmt && m.rows == d.rows && m.cols == d.cols
  {
    FromLanes(fmt, Lanes(d, fmt), Extent(d, 1 - AxisOf(fmt)), zero)
  }

  /** `m.toarray()`: the dense dataset a compressed matrix stands for. */
  function ToDense<T>(m: SparseMatrix<T>, zero: T): (d: Dense<T>)
    requires Valid(m)
    ensures WellShaped(d) && d.rows == m.rows && d.cols == m.cols
  {
    var lanes := ToLanes(m, zero);
    Dense(m.rows, m.cols, if m.format == Csr then lanes else Transpose(lanes, m.rows))
  }

  /** Expanding the lanes of `FromLanes(lanes)` gives `lanes` back. */
  lemma ToLanesFromLanes<T>(fmt: Format, lanes: seq<seq<T>>, minor: nat, zero: T)
    requires Rect(lanes, minor)
    ensures ToLanes(FromLanes(fmt, lanes, minor, zero), zero) == lanes
  {
    var m := FromLanes(fmt, lanes, minor, zero);
    forall k | 0 <= k < |lanes| ensures ToLanes(m, zero)[k] == lanes[k] {
      ExpandNonzeros(lanes[k], zero);
    }
  }

  /** Round trip: densifying the compressed form of a dense dataset, in either
      format, gives the dataset back. */
  lemma DenseRoundTrip<T>(d: Dense<T>, fmt: Format, zero: T)
    requires WellShaped(d)
    ensures ToDense(FromDense(d, fmt, zero), zero) == d
  {
    ToLanesFromLanes(fmt, Lanes(d, fmt), Extent(d, 1 - AxisOf(fmt)), zero);
    if fmt == Csc {
      TransposeTwice(d.cells, d.cols);
    }
  }

  /** A compressed matrix built from a dense dataset is in canonical format,
      and so duplicate-free. */
  lemma FromDenseCanonical<T>(d: Dense<T>, fmt: Format, zero: T)
    requires WellShaped(d)
    ensures HasCanonicalFormat(FromDense(d, fmt, zero))
    ensures DuplicateFree(FromDense(d, fmt, zero))
  {
    var lanes := Lanes(d, fmt);
    var m := FromDense(d, fmt, zero);
    forall k | 0 <= k < Major(m) ensures StrictlyIncreasing(LaneEntries(m, k).positions) {
      NonzerosIncreasing(lanes[k], zero);
    }
  }

  /** In a duplicate-free matrix every stored entry is what `toarray()` puts
      at its position: densifying neither loses nor merges stored values. */
  lemma DuplicateFreeStored<T>(m: SparseMatrix<T>, zero: T, k: nat, i: nat)
    requires Valid(m) && DuplicateFree(m) && k < Major(m) && i < |LaneEntries(m, k).positions|
    ensures LaneEntries(m, k).positions[i] < Minor(m)
    ensures ToLanes(m, zero)[k][LaneEntries(m, k).positions[i]] == LaneEntries(m, k).values[i]
  {
    var e := LaneEntries(m, k);
    assert e.positions[i] == m.indices[m.indptr[k] + i];
    LookupStored(e, i, zero);
  }

  /** The cell-level meaning of `toarray()` on a duplicate-free matrix, in
      either format: cell `(i, j)` holds the value stored at it (lane `i`,
      position `j` of a CSR matrix; lane `j`, position `i` of a CSC matrix),
      or `zero` when nothing is stored there. */
  lemma ToDenseCells<T>(m: SparseMatrix<T>, zero: T, i: nat, j: nat)
    requires Valid(m) && DuplicateFree(m) && i < m.rows && j < m.cols
    ensures var k, p := if m.format == Csr then i else j, if m.format == Csr then j else i;
      var e := LaneEntries(m, k);
      && (forall t | 0 <= t < |e.positions| && e.positions[t] == p :: ToDense(m, zero).cells[i][j] == e.values[t])
      && (p !in e.positions ==> ToDense(m, zero).cells[i][j] == zero)
  {
    var k, p := if m.format == Csr then i else j, if m.format == Csr then j else i;
    var e := LaneEntries(m, k);
    assert ToDense(m, zero).cells[i][j] == ToLanes(m, zero)[k][p] == Lookup(e, p, zero);
    forall t | 0 <= t < |e.positions| && e.positions[t] == p
      ensures ToDense(m, zero).cells[i][j] == e.values[t]
    {
      LookupStored(e, t, zero);
    }
    if p !in e.positions {
      LookupAbsent(e, p, zero);
    }
  }

  /** A lane whose positions are distinct but unsorted is duplicate-free
      without being canonical, and densifies to its stored values. */
  lemma UnsortedLaneExample()
    ensures var m := SparseMatrix(Csr, 1, 2, [5, 7], [1, 0], [0, 2]);
      && Valid(m) && DuplicateFree(m) && !HasCanonicalFormat(m)
      && ToDense(m, 0).cells == [[7, 5]]
  {
    var m := SparseMatrix(Csr, 1, 2, [5, 7], [1, 0], [0, 2]);
    var e := LaneEntries(m, 0);
    assert e == Entries([5, 7], [1, 0]);
    assert Lookup(e, 0, 0) == 7;
    assert Lookup(e, 1, 0) == 5;
    assert ToLanes(m, 0)[0] == [7, 5];
  }

  // ---------------------------------------------------------------------
  // Stacking compressed matrices along their compressed axis

  /** `sparse.vstack([a, b], format="csr")` for two CSR matrices and
      `sparse.hstack([a, b], format="csc")` for two CSC matrices: the lanes of
      `a` followed by the lanes of `b`, the pointers of `b` shifted past the
      entries of `a`. `StackValid` and `StackLanes` state what it yields. */
  function Stack<T>(a: SparseMatrix<T>, b: SparseMatrix<T>): (s: SparseMatrix<T>)
    requires Valid(a) && Valid(b) && a.format == b.format && Minor(a) == Minor(b)
    ensures s.format == a.format && Major(s) == Major(a) + Major(b) && Minor(s) == Minor(a)
    ensures |s.indptr| == |a.indptr| + Major(b)
  {
    var na, nb := Major(a), Major(b);
    SparseMatrix(a.format, RowsOf(a.format, na + nb, Minor(a)), ColsOf(a.format, na + nb, Minor(a)),
      a.data + b.data, a.indices + b.indices,
      a.indptr + seq(nb, k requires 0 <= k < nb => b.indptr[k + 1] + |a.data|))
  }

  /** The pointers of the stacked matrix: those of `a`, then those of `b`
      shifted by the number of entries of `a`. */
  lemma StackPointers<T>(a: SparseMatrix<T>, b: SparseMatrix<T>)
    requires Valid(a) && Valid(b) && a.format == b.format && Minor(a) == Minor(b)
    ensures forall k | 0 <= k <= Major(a) :: Stack(a, b).indptr[k] == a.indptr[k]
    ensures forall k | 0 <= k <= Major(b) :: Stack(a, b).indptr[Major(a) + k] == b.indptr[k] + |a.data|
  {
  }

  /** One pointer of the stacked matrix past the lanes of `a`. */
  lemma StackPointerRight<T>(a: SparseMatrix<T>, b: SparseMatrix<T>, k: nat)
    requires Valid(a) && Valid(b) && a.format == b.format && Minor(a) == Minor(b) && k <= Major(b)
    ensures Stack(a, b).indptr[Major(a) + k] == b.indptr[k] + |a.data|
  {
    StackPointers(a, b);
  }

  /** Stacking keeps the structural invariant. */
  lemma StackValid<T>(a: SparseMatrix<T>, b: SparseMatrix<T>)
    requires Valid(a) && Valid(b) && a.format == b.format && Minor(a) == Minor(b)
    ensures Valid(Stack(a, b))
  {
    StackOrdered(a, b);
    StackBounded(a, b);
    StackIndices(a, b);
  }

  lemma StackOrdered<T>(a: SparseMatrix<T>, b: SparseMatrix<T>)
    requires Valid(a) && Valid(b) && a.format == b.format && Minor(a) == Minor(b)
    ensures forall k | 0 <= k < Major(a) + Major(b) :: Stack(a, b).indptr[k] <= Stack(a, b).indptr[k + 1]
  {
    var s, na := Stack(a, b), Major(a);
    StackPointers(a, b);
    forall k | 0 <= k < na + Major(b) ensures s.indptr[k] <= s.indptr[k + 1] {
      if k >= na {
        var j := k - na;
        assert s.indptr[k] == b.indptr[j] + |a.data| && s.indptr[k + 1] == b.indptr[j + 1] + |a.data|;
      }
    }
  }

  lemma StackBounded<T>(a: SparseMatrix<T>, b: SparseMatrix<T>)
    requires Valid(a) && Valid(b) && a.format == b.format && Minor(a) == Minor(b)
    ensures forall k | 0 <= k <= Major(a) + Major(b) :: Stack(a, b).indptr[k] <= |a.data| + |b.data|
    ensures Stack(a, b).indptr[0] == 0
    ensures Stack(a, b).indptr[Major(a) + Major(b)] == |a.data| + |b.data|
  {
    var s, na := Stack(a, b), Major(a);
    StackPointers(a, b);
    forall k | 0 <= k <= na + Major(b) ensures s.indptr[k] <= |a.data| + |b.data| {
      if k >= na {
        assert s.indptr[k] == b.indptr[k - na] + |a.data|;
      }
    }
  }

  lemma StackIndices<T>(a: SparseMatrix<T>, b: SparseMatrix<T>)
    requires Valid(a) && Valid(b) && a.format == b.format && Minor(a) == Minor(b)
    ensures forall j | 0 <= j < |a.indices| + |b.indices| :: Stack(a, b).indices[j] < Minor(a)
  {
    var s := Stack(a, b);
    forall j | 0 <= j < |a.indices| + |b.indices| ensures s.indices[j] < Minor(a) {
      if j >= |a.indices| {
        assert s.indices[j] == b.indices[j - |a.indices|];
      }
    }
  }

  /** The lanes of the stacked matrix are those of `a`, then those of `b`. */
  lemma StackLanes<T>(a: SparseMatrix<T>, b: SparseMatrix<T>)
    requires Valid(a) && Valid(b) && a.format == b.format && Minor(a) == Minor(b)
    ensures Valid(Stack(a, b))
    ensures forall k | 0 <= k < Major(a) :: LaneEntries(Stack(a, b), k) == LaneEntries(a, k)
    ensures forall k | 0 <= k < Major(b) :: LaneEntries(Stack(a, b), Major(a) + k) == LaneEntries(b, k)
  {
    StackValid(a, b);
    forall k | 0 <= k < Major(a) ensures LaneEntries(Stack(a, b), k) == LaneEntries(a, k) {
      StackLaneLeft(a, b, k);
    }
    forall k | 0 <= k < Major(b) ensures LaneEntries(Stack(a, b), Major(a) + k) == LaneEntries(b, k) {
      StackLaneRight(a, b, k);
    }
  }

  lemma StackLaneLeft<T>(a: SparseMatrix<T>, b: SparseMatrix<T>, k: nat)
    requires Valid(a) && Valid(b) && a.format == b.format && Minor(a) == Minor(b)
    requires Valid(Stack(a, b)) && k < Major(a)
    ensures LaneEntries(Stack(a, b), k) == LaneEntries(a, k)
  {
    var s := Stack(a, b);
    StackPointers(a, b);
    var lo, hi := a.indptr[k], a.indptr[k + 1];
    assert lo <= hi <= |a.data|;
    assert s.indptr[k] == lo && s.indptr[k + 1] == hi;
    SliceOfPrefix(s.data, a.data, b.data, lo, hi);
    SliceOfPrefix(s.indices, a.indices, b.indices, lo, hi);
  }

  lemma StackLaneRight<T>(a: SparseMatrix<T>, b: SparseMatrix<T>, k: nat)
    requires Valid(a) && Valid(b) && a.format == b.format && Minor(a) == Minor(b)
    requires Valid(Stack(a, b)) && k < Major(b)
    ensures LaneEntries(Stack(a, b), Major(a) + k) == LaneEntries(b, k)
  {
    var s, na := Stack(a, b), Major(a);
    var lo, hi := b.indptr[k], b.indptr[k + 1];
    assert lo <= hi <= |b.data|;
    StackPointerRight(a, b, k);
    StackPointerRight(a, b, k + 1);
    var slo, shi := s.indptr[na + k], s.indptr[na + k + 1];
    SliceOfConcat(s.data, a.data, b.data, lo, hi, slo, shi);
    SliceOfConcat(s.indices, a.indices, b.indices, lo, hi, slo, shi);
  }

  /** A window of `p + q` that lies past `p` is a window of `q`. */
  lemma SliceOfConcat<U>(whole: seq<U>, p: seq<U>, q: seq<U>, lo: nat, hi: nat, wlo: nat, whi: nat)
    requires whole == p + q && lo <= hi <= |q| && wlo == |p| + lo && whi == |p| + hi
    ensures whole[wlo..whi] == q[lo..hi]
  {
  }

  /** A window of `p + q` that lies within `p` is a window of `p`. */
  lemma SliceOfPrefix<U>(whole: seq<U>, p: seq<U>, q: seq<U>, lo: nat, hi: nat)
    requires whole == p + q && lo <= hi <= |p|
    ensures whole[lo..hi] == p[lo..hi]
  {
  }

  /** A valid compressed matrix is determined by its format, shape and the
      entries of each lane. */
  lemma {:induction false} SameLanesSame<T>(a: SparseMatrix<T>, b: SparseMatrix<T>)
    requires Valid(a) && Valid(b) && a.format == b.format && a.rows == b.rows && a.cols == b.cols
    requires forall k | 0 <= k < Major(a) :: LaneEntries(a, k) == LaneEntries(b, k)
    ensures a == b
  {
    var n := Major(a);
    for i := 0 to n
      invariant a.indptr[..i + 1] == b.indptr[..i + 1]
      invariant a.data[..a.indptr[i]] == b.data[..b.indptr[i]]
      invariant a.indices[..a.indptr[i]] == b.indices[..b.indptr[i]]
    {
      assert a.indptr[i] <= a.indptr[i + 1] && b.indptr[i] <= b.indptr[i + 1];
      assert LaneEntries(a, i) == LaneEntries(b, i);
      assert a.indptr[..i + 2] == a.indptr[..i + 1] + [a.indptr[i + 1]];
      assert b.indptr[..i + 2] == b.indptr[..i + 1] + [b.indptr[i + 1]];
      assert a.data[..a.indptr[i + 1]] == a.data[..a.indptr[i]] + a.data[a.indptr[i]..a.indptr[i + 1]];
      assert b.data[..b.indptr[i + 1]] == b.data[..b.indptr[i]] + b.data[b.indptr[i]..b.indptr[i + 1]];
      assert a.indices[..a.indptr[i + 1]] == a.indices[..a.indptr[i]] + a.indices[a.indptr[i]..a.indptr[i + 1]];
      assert b.indices[..b.indptr[i + 1]] == b.indices[..b.indptr[i]] + b.indices[b.indptr[i]..b.indptr[i + 1]];
    }
    assert a.indptr == a.indptr[..n + 1] && b.indptr == b.indptr[..n + 1];
    assert a.data == a.data[..a.indptr[n]] && b.data == b.data[..b.indptr[n]];
    assert a.indices == a.indices[..a.indptr[n]] && b.indices == b.indices[..b.indptr[n]];
  }

  /** Compressing two runs of lanes and stacking the results is compressing
      their concatenation. */
  lemma FromLanesAppend<T>(fmt: Format, lanes1: seq<seq<T>>, lanes2: seq<seq<T>>, minor: nat, zero: T)
    requires Rect(lanes1, minor) && Rect(lanes2, minor)
    ensures Rect(lanes1 + lanes2, minor)
    ensures FromLanes(fmt, lanes1 + lanes2, minor, zero)
         == Stack(FromLanes(fmt, lanes1, minor, zero), FromLanes(fmt, lanes2, minor, zero))
  {
    var lanes := lanes1 + lanes2;
    var whole := FromLanes(fmt, lanes, minor, zero);
    var m1, m2 := FromLanes(fmt, lanes1, minor, zero), FromLanes(fmt, lanes2, minor, zero);
    FromLanesSplit(lanes1, lanes2, zero, whole, m1, m2);
    StackUnique(whole, m1, m2);
  }

  /** A matrix storing the nonzeros of `lanes1 + lanes2` has the lanes of one
      storing those of `lanes1`, followed by the lanes of one storing those
      of `lanes2`. */
  lemma FromLanesSplit<T>(lanes1: seq<seq<T>>, lanes2: seq<seq<T>>, zero: T,
                          whole: SparseMatrix<T>, m1: SparseMatrix<T>, m2: SparseMatrix<T>)
    requires Valid(whole) && Valid(m1) && Valid(m2)
    requires Major(whole) == |lanes1| + |lanes2| && Major(m1) == |lanes1| && Major(m2) == |lanes2|
    requires forall k | 0 <= k < |lanes1| + |lanes2| :: LaneEntries(whole, k) == Nonzeros((lanes1 + lanes2)[k], zero)
    requires forall k | 0 <= k < |lanes1| :: LaneEntries(m1, k) == Nonzeros(lanes1[k], zero)
    requires forall k | 0 <= k < |lanes2| :: LaneEntries(m2, k) == Nonzeros(lanes2[k], zero)
    ensures forall k | 0 <= k < Major(m1) :: LaneEntries(whole, k) == LaneEntries(m1, k)
    ensures forall k | 0 <= k < Major(m2) :: LaneEntries(whole, Major(m1) + k) == LaneEntries(m2, k)
  {
    var lanes := lanes1 + lanes2;
    forall k | 0 <= k < Major(m1) ensures LaneEntries(whole, k) == LaneEntries(m1, k) {
      ConcatAt(lanes1, lanes2, k);
      assert lanes[k] == lanes1[k];
      assert LaneEntries(whole, k) == Nonzeros(lanes[k], zero);
    }
    forall k | 0 <= k < Major(m2) ensures LaneEntries(whole, Major(m1) + k) == LaneEntries(m2, k) {
      ConcatAt(lanes1, lanes2, |lanes1| + k);
      assert lanes[|lanes1| + k] == lanes2[k];
      assert LaneEntries(whole, |lanes1| + k) == Nonzeros(lanes[|lanes1| + k], zero);
    }
  }

  /** A matrix whose lanes are those of `a` followed by those of `b` is
      their stack. */
  lemma StackUnique<T>(whole: SparseMatrix<T>, a: SparseMatrix<T>, b: SparseMatrix<T>)
    requires Valid(whole) && Valid(a) && Valid(b)
    requires a.format == b.format == whole.format && Minor(a) == Minor(b) == Minor(whole)
    requires Major(whole) == Major(a) + Major(b)
    requires forall k | 0 <= k < Major(a) :: LaneEntries(whole, k) == LaneEntries(a, k)
    requires forall k | 0 <= k < Major(b) :: LaneEntries(whole, Major(a) + k) == LaneEntries(b, k)
    ensures whole == Stack(a, b)
  {
    var s := Stack(a, b);
    StackValid(a, b);
    assert whole.rows == s.rows && whole.cols == s.cols;
    forall k | 0 <= k < Major(whole) ensures LaneEntries(whole, k) == LaneEntries(s, k) {
      if k < Major(a) {
        StackLaneLeft(a, b, k);
      } else {
        StackLaneRight(a, b, k - Major(a));
      }
    }
    SameLanesSame(whole, s);
  }

  /** Element `k` of `p + q`. */
  lemma ConcatAt<U>(p: seq<U>, q: seq<U>, k: nat)
    requires k < |p| + |q|
    ensures (p + q)[k] == if k < |p| then p[k] else q[k - |p|]
  {
  }
}
