# A model of anndata's h5ad reader and writer

This project models the core of `anndata/_io/h5ad.py`: the part of
anndata that writes an `AnnData` object to an `.h5ad` (HDF5) file and reads
it back. It is written in Dafny, and the properties below are proved for
every input.

The model covers five concerns:

- **Options.** `write_h5ad` normalises `force_dense` / `as_dense` and
  `read_h5ad` normalises `backed` / `as_sparse_fmt` / `as_sparse`, or rejects
  them, before a file is opened (`Options`).
- **The overwrite guard.** `write_sparse_as_dense` writes a sparse matrix as
  a dense dataset (`OverwriteGuard`). The file is a flat store of keyed
  nodes, and a `Store` class changes it in place with the four operations
  the function uses. The fill loop writes one window of 1000 positions at
  a time along the fill axis: columns for an in-memory CSC matrix, rows for
  every other value (an on-disk CSC value is filled along rows too).
  - When the key is taken and the value is an on-disk object of the same
    file, the dataset is built under a temporary sibling key and swapped in
    at the end. The value need not sit at the key itself: any path of the
    same file triggers the swap.
  - When the key is taken and the value is not such an object, the key is
    deleted first.

  The temporary key comes from a regular-expression substitution, modelled
  line by line in `TempKey`.
- **Dense to sparse.** `read_dense_as_sparse`, `read_dense_as_csr` and
  `read_dense_as_csc` read a dense dataset as CSR or CSC, one chunk at a
  time from the chunk planner, and stack the pieces (`DenseToSparse`, over
  the matrices of `Matrix` and the windows of `ChunkPlanner`).
- **The read plan.** Modelled in `ReadPlan`:
  - the eager loop's dispatch of root keys to readers;
  - which raw fields `_read_raw` loads;
  - the elements a backed read loads;
  - the probe of `X`'s element type.
- **The write plan.** Modelled in `WritePlan`:
  - the file mode;
  - the root attributes that are set only when absent;
  - whether and how `X` and the raw part are written;
  - the fixed order of the remaining elements.

Where the model takes a side:

- **`as_dense` renaming.** Only the first `raw.X` in `as_dense` is renamed,
  as the code does with `list.index`. A second `raw.X` is therefore refused
  with `NotImplementedError` (`Options.TwoLegacyNames`).
- **Unreachable assert.** The `elif k == "raw"` branch of the eager loop
  (`anndata/_io/h5ad.py:232-233`) can never be reached. The `continue` above
  it has already skipped `raw`, so `ReadPlan.Dispatch` marks that branch dead.
- **Temporary key equal to the key.** In the aliased branch, the temporary
  key can equal the real key: this happens when the key's last segment has
  no word character with no `/` after it and the key does not end in `/`
  (`a/-/` strips to `a/-`, so its temporary key differs from it). It can
  also be an existing key. `create_dataset` then raises `ValueError` and
  the file is left as it was.
  `OverwriteGuard.WriteSparseAsDense` states exactly when this happens.
- **Duplicate entries.** `toarray()` sums the values stored at one
  position of a lane. The element type here is generic and has no
  addition, so the cell-level meaning of `Matrix.ToDense` is stated for
  duplicate-free matrices: no lane stores a position twice, in whatever
  order its positions come (`Matrix.ToDenseCells`,
  `Matrix.UnsortedLaneExample`). `csr_matrix(d)` / `csc_matrix(d)` are even
  canonical, with strictly increasing positions
  (`Matrix.FromDenseCanonical`). `OverwriteGuard.WriteSparseAsDense`
  requires a duplicate-free value.
- **Re-saving.** `WritePlan.ResaveKeepsAttrs` is about append mode, the
  mode of a backed object written to its own file. A re-save of an object
  that is not backed opens the file with mode `w`, which truncates it, so
  the root attributes are then exactly the two defaults again
  (`WritePlan.RootAttrsSpec`).
- **Well-formed files.** `ReadPlan.ReadH5ad` reads a file whose root keys
  are distinct, have no `/`, and are exactly the slash-free paths of its
  objects (`ReadPlan.WellFormed`).

## Model

| member | source | states |
|---|---|---|
| Options.AsList | anndata/_io/h5ad.py:55-56 | a bare string stands for the list holding only that string; a list is kept as given |
| Options.FirstIndex | anndata/_io/h5ad.py:59 | `list.index`: the position holds the element, and no earlier position does |
| Options.NormalizeAsDense | anndata/_io/h5ad.py:50-65 | on failure the error is `NotImplementedError` or `ValueError`; on success every entry is `X` or `raw/X`, and `raw/X` only when there is a raw part |
| Options.ReplaceFirstEntries | anndata/_io/h5ad.py:57-59 | the renaming keeps the length and every entry except the first `raw.X`, which becomes `raw/X` |
| Options.ForceDense | anndata/_io/h5ad.py:50-54 | `force_dense=True` never fails; it yields `X`, plus `raw/X` exactly when there is a raw part, whatever `as_dense` was |
| Options.AsDenseSuccess | anndata/_io/h5ad.py:55-65 | on success: same order and length as given, only the first `raw.X` rewritten, only `X`/`raw/X` left, and `raw/X` only when a raw part exists |
| Options.AsDenseErrors | anndata/_io/h5ad.py:57-65 | `NotImplementedError` iff an entry is unsupported and is not the first `raw.X`; otherwise `ValueError` iff `raw/X` is asked for (in either spelling) with no raw part |
| Options.RenamedSupported | anndata/_io/h5ad.py:57-63 | after renaming, every entry is supported iff each given entry is supported or is the first `raw.X` |
| Options.RenamedAsksRaw | anndata/_io/h5ad.py:57-64 | the renamed list contains `raw/X` iff the given list contains `raw/X` or `raw.X` |
| Options.TwoLegacyNames | anndata/_io/h5ad.py:57-63 | a list holding `raw.X` twice is refused with `NotImplementedError` |
| Options.CanonicalList | anndata/_io/h5ad.py:212-218 | the normalisation of `as_sparse` fails only with `NotImplementedError`; on success it keeps the length and every entry is `X` or `raw/X` |
| Options.ReadArgs | anndata/_io/h5ad.py:197-218 | a backed read has mode `r` or `r+`; an eager read has only `X`/`raw/X` in `as_sparse`; a failure is `AssertionError` or `NotImplementedError` |
| Options.Canonical | anndata/_io/h5ad.py:212-218 | `("raw","X")`, `raw.X` and `raw/X` mean `raw/X`; `X` means `X`; nothing else is accepted |
| Options.NormalizeAsSparse | anndata/_io/h5ad.py:208-218 | the in-place loop returns what `Options.CanonicalList` yields: every entry rewritten to its canonical name, or `NotImplementedError` |
| Options.AsSparseSuccess | anndata/_io/h5ad.py:208-218 | the normalised list is as long as the given one and holds only `X`/`raw/X`; it names `raw/X` iff some given entry was one of its three spellings, and `X` iff `X` was given |
| Options.AsSparseIdempotent | anndata/_io/h5ad.py:212-218 | normalising a normalised list changes nothing |
| Options.CheckReadArgs | anndata/_io/h5ad.py:197-218 | the argument checks of `read_h5ad`, in source order, return what `Options.ReadArgs` yields |
| Options.ReadArgsCases | anndata/_io/h5ad.py:197-218 | `backed=True` means mode `r+`; a mode other than `r`/`r+` raises `AssertionError`; a backed read ignores `as_sparse*`; an unsupported class raises `NotImplementedError` whatever `as_sparse` holds; otherwise success iff every entry is canonical |
| ChunkPlanner.ChunksFrom | anndata/_io/h5ad.py:190-193 | the windows start at the given position and end at the total; each lies in range and holds at most `chunk` positions; none is empty unless the range is |
| ChunkPlanner.PlanChunks | anndata/_io/h5ad.py:343-357 | a chunk size below 1 is refused with `ValueError`, and only such a size; otherwise the windows run from 0 to the axis length |
| ChunkPlanner.Chunks | anndata/_io/h5ad.py:190-193 | the windows of a whole axis run from 0 to its length |
| ChunkPlanner.ChunksFromAdjacent | anndata/_io/h5ad.py:190-193 | every window but the last is a full chunk, and the next window starts where it stops |
| ChunkPlanner.ConsecutiveStart | anndata/_io/h5ad.py:124 | window `i` starts where the first `i` windows stop |
| ChunkPlanner.ChunksContiguous | anndata/_io/h5ad.py:190-193 | consecutive windows meet |
| ChunkPlanner.ChunksPartition | anndata/_io/h5ad.py:190-193 | the windows are disjoint and in increasing order, and cover every position of the axis |
| ChunkPlanner.StartsIncrease | anndata/_io/h5ad.py:190-193 | each window stops no later than any later window starts |
| ChunkPlanner.FindWindow | anndata/_io/h5ad.py:190-193 | a position below window `hi`'s stop lies in some window at or before `hi` |
| Matrix.Zeros | anndata/_io/h5ad.py:122 | a new dataset of the requested shape, with every cell holding the fill value |
| Matrix.Slice | anndata/_io/h5ad.py:125 | the window `[lo, hi)` along an axis keeps the other axis's length |
| Matrix.SliceCells | anndata/_io/h5ad.py:125 | each cell of a window is the source cell offset by `lo` |
| Matrix.Assign | anndata/_io/h5ad.py:125 | `dset[idx] = chunk`: cells inside the window come from the chunk, all others are unchanged |
| Matrix.PartlyFilled | anndata/_io/h5ad.py:124-125 | cells before `upto` come from the target, the rest hold the fill value |
| Matrix.FilledNothing | anndata/_io/h5ad.py:122 | a dataset filled up to 0 is the freshly created one |
| Matrix.FilledEverything | anndata/_io/h5ad.py:124-125 | a dataset filled along the whole axis is the target |
| Matrix.FillStep | anndata/_io/h5ad.py:125 | writing the target's window `[lo, hi)` into a dataset filled up to `lo` fits it, and leaves it filled up to `hi` |
| Matrix.DenseExt | anndata/_io/h5ad.py:125 | two datasets with the same shape and the same cells are equal |
| Matrix.Nonzeros | anndata/_io/h5ad.py:347 | the stored positions of a lane lie inside it, one per value |
| Matrix.NonzerosSpec | anndata/_io/h5ad.py:347 | a lane's entries as `csr_matrix` stores them: exactly its nonzero elements, at strictly increasing positions |
| Matrix.NonzerosStored | anndata/_io/h5ad.py:347 | every stored value is the nonzero element at its position |
| Matrix.NonzerosIncreasing | anndata/_io/h5ad.py:347 | stored positions increase strictly |
| Matrix.NonzerosComplete | anndata/_io/h5ad.py:347 | every nonzero element is stored |
| Matrix.Lookup | anndata/_io/h5ad.py:125 | the element read at a position of a lane is zero or one of the lane's stored values |
| Matrix.Expand | anndata/_io/h5ad.py:125 | the dense lane has the requested width, and each element is zero or a stored value |
| Matrix.ToLanes | anndata/_io/h5ad.py:125 | one dense lane per major index, each as long as the minor axis |
| Matrix.LookupStored | anndata/_io/h5ad.py:125 | in a lane that stores no position twice, in any order, reading a stored position gives its stored value |
| Matrix.LookupAbsent | anndata/_io/h5ad.py:125 | reading a position that is not stored gives zero |
| Matrix.LookupNonzeros | anndata/_io/h5ad.py:125 | reading a lane's nonzero entries at any position gives the lane's element there |
| Matrix.ExpandNonzeros | anndata/_io/h5ad.py:125 | `toarray` of a lane's nonzeros is the lane |
| Matrix.AppendLane | anndata/_io/h5ad.py:347 | adding a lane keeps the matrix valid and every earlier lane, and the new lane holds the given entries |
| Matrix.FromLanes | anndata/_io/h5ad.py:347 | compressing lanes gives a valid matrix whose lane `k` stores exactly the nonzeros of lane `k` |
| Matrix.ToLanesFromLanes | anndata/_io/h5ad.py:347 | expanding compressed lanes gives the lanes back |
| Matrix.Transpose | anndata/_io/h5ad.py:355 | element `(i, j)` of the transpose is element `(j, i)` of the input |
| Matrix.TransposeTwice | anndata/_io/h5ad.py:355 | transposing twice gives the input back |
| Matrix.FromDenseCanonical | anndata/_io/h5ad.py:347 | `csr_matrix(d)` / `csc_matrix(d)` is in canonical format: positions strictly increase in every lane, so none is stored twice |
| Matrix.DuplicateFreeStored | anndata/_io/h5ad.py:125 | in a duplicate-free matrix, each stored entry lies inside its lane and `toarray` puts exactly its value at its position |
| Matrix.FromDense | anndata/_io/h5ad.py:347 | `csr_matrix(d)` / `csc_matrix(d)` is valid, has the requested format and keeps the shape |
| Matrix.ToDense | anndata/_io/h5ad.py:125 | `toarray()` keeps the shape |
| Matrix.ToDenseCells | anndata/_io/h5ad.py:125 | for a duplicate-free matrix in either format, cell `(i, j)` of `toarray()` is the value stored at it (lane `i`, position `j` for CSR; lane `j`, position `i` for CSC), or zero when none is |
| Matrix.UnsortedLaneExample | anndata/_io/h5ad.py:125 | a CSR lane storing positions 1 and 0 in that order is duplicate-free but not canonical, and densifies to its values in position order |
| Matrix.DenseRoundTrip | anndata/_io/h5ad.py:343-357 | `toarray` of the compressed form of a dense dataset gives the dataset back, in either format |
| Matrix.Stack | anndata/_io/h5ad.py:349 | stacking keeps the format and adds up the lanes |
| Matrix.StackPointers | anndata/_io/h5ad.py:349 | the stacked pointers are `a`'s, then `b`'s shifted by `a`'s entry count |
| Matrix.StackValid | anndata/_io/h5ad.py:349 | the stack of two valid matrices is valid |
| Matrix.StackLanes | anndata/_io/h5ad.py:349 | the stack's lanes are `a`'s lanes followed by `b`'s |
| Matrix.SameLanesSame | anndata/_io/h5ad.py:349 | a valid matrix is determined by its format, its shape and the entries of each lane |
| Matrix.StackUnique | anndata/_io/h5ad.py:349 | a matrix whose lanes are `a`'s followed by `b`'s is `Stack(a, b)` |
| Matrix.FromLanesAppend | anndata/_io/h5ad.py:343-357 | compressing two runs of lanes separately and stacking them is compressing them together |
| Matrix.FromLanesSplit | anndata/_io/h5ad.py:343-357 | the matrix of concatenated lanes has the lanes of each part |
| DenseToSparse.Concat | anndata/_io/h5ad.py:349 | `vstack`/`hstack` of stackable matrices is valid and keeps the format and the lane length |
| DenseToSparse.ChunkMatrices | anndata/_io/h5ad.py:344-348 | one converted matrix per window, in window order |
| DenseToSparse.ChunkMatrix | anndata/_io/h5ad.py:346-347 | a converted chunk is valid, has the requested format, and its lanes are as long as the dataset's other axis |
| DenseToSparse.ChunkedRead | anndata/_io/h5ad.py:343-357 | the stacked chunks are valid and have the requested format |
| DenseToSparse.ChunkedConversion | anndata/_io/h5ad.py:343-357 | for every chunk size of at least 1, the chunked read equals `csr_matrix(d)` / `csc_matrix(d)` of the whole dataset |
| DenseToSparse.ChunkSizeInvariant | anndata/_io/h5ad.py:343-357 | any two chunk sizes of at least 1 give the same matrix |
| DenseToSparse.ConvertChunks | anndata/_io/h5ad.py:344-348 | the loop returns the windows converted one by one, in order |
| DenseToSparse.ReadDenseAsCsr | anndata/_io/h5ad.py:343-349 | `ValueError` iff the chunk size is below 1; otherwise the result is `csr_matrix` of the whole dataset, and `toarray` of it gives the dataset back |
| DenseToSparse.ReadDenseAsCsc | anndata/_io/h5ad.py:352-357 | `ValueError` iff the chunk size is below 1; otherwise the result is `csc_matrix` of the whole dataset, and `toarray` of it gives the dataset back |
| DenseToSparse.ReadDenseAsSparse | anndata/_io/h5ad.py:331-340 | `ValueError` iff the requested class is neither CSR nor CSC or the chunk size is below 1; otherwise that conversion, which densifies back to the dataset |
| TempKey.RStripSlash | anndata/_io/h5ad.py:119 | `rstrip("/")` gives a prefix of the key, not ending in `/`, with only slashes removed |
| TempKey.LastMarkBelow | anndata/_io/h5ad.py:119 | the greedy match: the last word character below `n` with no `/` after it, or none |
| TempKey.SubLine | anndata/_io/h5ad.py:119 | the substitution on one line adds at most one character |
| TempKey.TempKey | anndata/_io/h5ad.py:119 | the temporary key is at least as long as the key with its trailing `/` stripped |
| TempKey.NewlineAt | anndata/_io/h5ad.py:119 | the first newline, or the end of the string |
| TempKey.SubLineSpec | anndata/_io/h5ad.py:119 | on one line, `_` goes right before the last word character that has no `/` after it; the line is unchanged iff there is none; the last character is kept |
| TempKey.SubSpec | anndata/_io/h5ad.py:119 | the substitution never shortens a string, and leaves it unchanged iff no line has such a character |
| TempKey.SubLineLast | anndata/_io/h5ad.py:119 | the substitution on one non-empty line keeps its last character |
| TempKey.SubLast | anndata/_io/h5ad.py:119 | the substitution keeps the last character |
| TempKey.SubLineNoNewline | anndata/_io/h5ad.py:119 | substituting on a line adds no newline |
| TempKey.OneLine | anndata/_io/h5ad.py:119 | a string with no newline is substituted as one line |
| TempKey.Examples | anndata/_io/h5ad.py:118-119 | `X` becomes `_X`, `raw/X` becomes `raw/_X`, and `raw/X/` becomes `raw/_X` |
| TempKey.LastCharacterExample | anndata/_io/h5ad.py:119 | `raw/ab` becomes `raw/a_b`: the `_` goes before the last character, not before the segment |
| TempKey.TempKeyUnchangedIff | anndata/_io/h5ad.py:119 | the temporary key equals the key iff the key has no trailing `/` and no line with a word character that has no `/` after it |
| TempKey.TempKeySibling | anndata/_io/h5ad.py:117-119 | a one-line key whose stripped form has a word character with no `/` after it gets a temporary key different from itself |
| TempKey.TempKeyInsertion | anndata/_io/h5ad.py:119 | for such a key, the temporary key is the stripped key with `_` inserted in its final segment, at or after that character |
| Store.Apply | anndata/_io/h5ad.py:121-129 | after a successful operation its target is present iff the operation is not a delete |
| Store.ApplyFrame | anndata/_io/h5ad.py:121-129 | a successful operation leaves every key except its target as it was |
| Store.RunFrame | anndata/_io/h5ad.py:121-129 | `Store.Run`: a key no operation of a successful run targets is present afterwards iff it was before, with the same node |
| Store.RunAppend | anndata/_io/h5ad.py:121-129 | running two operation sequences in turn is running their concatenation, stopping at the first failure |
| Store.RunSnoc | anndata/_io/h5ad.py:121-129 | one more operation after a successful prefix is applied to the prefix's result |
| Store.Store.CreateDataset | anndata/_io/h5ad.py:122 | fails with `ValueError` iff the key is taken, and then changes nothing; otherwise adds a fill-valued dataset and logs the create |
| Store.Store.Delete | anndata/_io/h5ad.py:121 | fails with `KeyError` iff the key is absent; otherwise removes exactly that key and logs the delete |
| Store.Store.WriteWindow | anndata/_io/h5ad.py:125 | succeeds iff the target is a dense dataset the chunk fits; then assigns the window and logs the write, else changes nothing |
| Store.Store.Link | anndata/_io/h5ad.py:128 | succeeds iff the source exists and the destination is free; then the destination names the source's node |
| OverwriteGuard.CompressedAxis | anndata/_io/h5ad.py:123 | the fill runs along columns iff the value is an in-memory CSC matrix |
| OverwriteGuard.BranchOf | anndata/_io/h5ad.py:111-121 | swap iff the key is taken and the value is an on-disk object of the same file, at any path; wipe iff the key is taken and the value is not such an object; fresh iff the key is free |
| OverwriteGuard.DestKey | anndata/_io/h5ad.py:111-119 | the dataset is created under a key other than the real key only when the key is taken and the value is aliased |
| OverwriteGuard.FillWindows | anndata/_io/h5ad.py:124 | the fill windows run from 0 to the compressed axis's length and stay inside it |
| OverwriteGuard.FillOps | anndata/_io/h5ad.py:124-125 | one window write per fill window |
| OverwriteGuard.FillOpsShape | anndata/_io/h5ad.py:124-125 | every fill operation writes, along the fill axis, at most 1000 positions of the dataset at the destination key |
| OverwriteGuard.OverwriteOps | anndata/_io/h5ad.py:110-129 | every operation of the guard targets the real key or the key the dataset is created under |
| OverwriteGuard.FillWindowSizes | anndata/_io/h5ad.py:124 | each window holds at most 1000 positions, and none is empty unless the axis is |
| OverwriteGuard.EachPositionOnce | anndata/_io/h5ad.py:124-125 | every position along the fill axis is written by exactly one window |
| OverwriteGuard.RunFillPrefix | anndata/_io/h5ad.py:124-125 | after `i` window writes, the dataset holds the target up to window `i`'s stop and the fill value beyond it |
| OverwriteGuard.RunFill | anndata/_io/h5ad.py:124-125 | the whole fill turns the created dataset into the dense expansion of the value |
| OverwriteGuard.RunCreateFill | anndata/_io/h5ad.py:122-125 | create plus fill, on a free key, adds exactly the dense expansion under that key |
| OverwriteGuard.RunSwap | anndata/_io/h5ad.py:126-129 | delete, link and delete move the temporary node under the real key and leave everything else alone |
| OverwriteGuard.OverwriteOutcome | anndata/_io/h5ad.py:110-129 | the guard's operations fail with `ValueError` iff the aliased branch meets a taken temporary key; otherwise the key holds the dense expansion and nothing else differs |
| OverwriteGuard.SwapOutcome | anndata/_io/h5ad.py:116-129 | the aliased branch fails with `ValueError` iff the temporary key is taken; otherwise the real key ends up holding the dense expansion |
| OverwriteGuard.WipeOutcome | anndata/_io/h5ad.py:120-125 | deleting a taken key, then creating and filling under it, leaves the dense expansion there and changes nothing else |
| OverwriteGuard.OverwriteFrame | anndata/_io/h5ad.py:110-129 | afterwards the key is present, the temporary key is gone in the aliased branch, and every other key is present iff it was before, with the same node |
| OverwriteGuard.SourceReadable | anndata/_io/h5ad.py:116-129 | in the aliased branch, no operation before the swap touches the real key, which still holds the value being read; the operation right after the last window write deletes it |
| OverwriteGuard.CreateFillPrefix | anndata/_io/h5ad.py:122-125 | the create and the first window writes touch only the temporary key, and leave it partly filled |
| OverwriteGuard.CreateFillTargets | anndata/_io/h5ad.py:122-125 | the create and every window write target the key the dataset is created under |
| OverwriteGuard.FillIteration | anndata/_io/h5ad.py:124-125 | one turn of the fill loop performs the next fill operation and extends the filled region to the window's stop |
| OverwriteGuard.Fill | anndata/_io/h5ad.py:124-125 | the loop leaves the destination equal to the dense expansion of the value, and logs exactly the window writes in order |
| OverwriteGuard.CreateFilled | anndata/_io/h5ad.py:122-125 | fails with `ValueError` iff the destination is taken, and then changes nothing; otherwise adds the dense expansion under it |
| OverwriteGuard.SwapIn | anndata/_io/h5ad.py:126-129 | the real key gets the temporary node, the temporary key disappears, and the log gains the three operations |
| OverwriteGuard.WriteSparseAsDense | anndata/_io/h5ad.py:110-129 | fails iff the aliased branch meets a taken temporary key, and then leaves the file unchanged; otherwise the key holds the dense expansion, every other key is as before, and the operations are exactly the guard's |
| ReadPlan.Dispatch | anndata/_io/h5ad.py:226-238 | only `X` goes to the dense-as-sparse reader, and only `obs`/`var` to the data-frame reader |
| ReadPlan.EagerFields | anndata/_io/h5ad.py:226-238 | every key the eager loop reads is a root key of the file and not a raw key |
| ReadPlan.DispatchCases | anndata/_io/h5ad.py:226-238 | the eager loop reads every root key except `raw` and `raw.*`; dense-as-sparse iff the key is `X` and `X` is in `as_sparse`; the data-frame reader iff the key is `obs` or `var` |
| ReadPlan.EagerReadLoop | anndata/_io/h5ad.py:225-238 | the loop builds exactly the reads `ReadPlan.EagerFields` describes |
| ReadPlan.ReadRaw | anndata/_io/h5ad.py:257-273 | fails with `AssertionError` iff `as_sparse` is non-empty and no dense-as-sparse reader is given; otherwise reads only `X`, `var`, `varm` among the attributes asked for |
| ReadPlan.ReadRawFields | anndata/_io/h5ad.py:257-272 | `_read_raw` reads a field iff it is asked for and present; `raw/X` goes to the dense-as-sparse reader iff `as_sparse` names it; the others go to `read_elem` |
| ReadPlan.BackedRawNoX | anndata/_io/h5ad.py:148 | a backed read never loads `raw/X` |
| ReadPlan.ProbeDtype | anndata/_io/h5ad.py:242-250 | a type is reported only when `X` exists; the probe fails only on an existing `X`, with `KeyError`, `AttributeError` or `ValueError` |
| ReadPlan.ProbeDtypeSpec | anndata/_io/h5ad.py:242-250 | the probe succeeds iff `X` is absent, typed, or a group whose `data` is typed, and then reports that type |
| ReadPlan.BackedFields | anndata/_io/h5ad.py:136-146 | a backed read loads neither `X` nor `raw`, and only elements present in the file |
| ReadPlan.BackedFieldsSpec | anndata/_io/h5ad.py:136-146 | a backed read loads every present element of the eight; the data-frame reader is used exactly for `obs`/`var` of a file without `encoding-type` |
| ReadPlan.ReadH5ad | anndata/_io/h5ad.py:197-254 | on a well-formed file: argument errors come first, then the dtype error; every loaded element is an object of the file; a backed result loads the backed fields and the raw `var`/`varm`; an eager result loads the eager fields and the raw part with `as_sparse` |
| WritePlan.RootAttrs | anndata/_io/h5ad.py:72-79 | both encoding attributes are present afterwards |
| WritePlan.SetDefault | anndata/_io/h5ad.py:78-79 | `setdefault` keeps an existing value and only adds a missing key |
| WritePlan.OptionsCheckedFirst | anndata/_io/h5ad.py:45-75 | a rejected option fails the write with the option's error, whatever the file holds |
| WritePlan.RootAttrsSpec | anndata/_io/h5ad.py:72-79 | both encoding attributes are present afterwards; append mode keeps every existing attribute and adds only the defaults; write mode holds exactly the two defaults |
| WritePlan.ResaveKeepsAttrs | anndata/_io/h5ad.py:78-79 | setting the defaults again in append mode changes nothing |
| WritePlan.XSteps | anndata/_io/h5ad.py:81-86 | at most one write, and it is of `X` |
| WritePlan.RawSteps | anndata/_io/h5ad.py:87-98 | at most three writes, all of the raw part; exactly three iff `raw/X` is written dense from a sparse raw `X` |
| WritePlan.XSkipped | anndata/_io/h5ad.py:81-86 | `X` is not written iff the object is backed and either has no `X`, or is backed by this file, is not a view and `X` is not rewritten dense; dense iff asked, sparse and present |
| WritePlan.PreludeSteps | anndata/_io/h5ad.py:81-98 | at most four writes for `X` and the raw part, `X` only first, no key twice |
| WritePlan.FieldKeys | anndata/_io/h5ad.py:99-106 | the eight remaining elements are distinct and none is `X` or a raw key |
| WritePlan.JoinSteps | anndata/_io/h5ad.py:81-106 | joining the prelude and the eight elements keeps their order and their distinct keys |
| WritePlan.WriteOrder | anndata/_io/h5ad.py:81-106 | a plan ends with `obs`, `var`, `obsm`, `varm`, `obsp`, `varp`, `layers`, `uns` in that order; `X` comes first if at all; no element is written twice |
| WritePlan.WriteH5ad | anndata/_io/h5ad.py:67-106 | succeeds iff the options normalise; then mode `a` iff the object is backed, else `w`; both encoding attributes are set; between 8 and 12 writes |
| WritePlan.PlanSteps | anndata/_io/h5ad.py:67-106 | a successful plan is the `X` writes, then the raw writes, both for the list `NormalizeAsDense` yields from the options, then the eight elements |
| WritePlan.DenseWrites | anndata/_io/h5ad.py:50-98 | `X` is written dense from sparse iff it is written at all, is sparse and the normalised `as_dense` names it; `raw/X` iff the raw matrix is sparse and the list names it; `force_dense=True` writes a sparse `X`, and a sparse raw matrix, dense |

## Left out

- I/O: opening, closing and reopening files, file modes as behaviour, and paths are not modelled. The file is a value (`ReadPlan.File`) or a flat store of keyed nodes (`Store.Store`).
- Store: HDF5 groups, intermediate group creation and attributes on datasets are not modelled. A node is a dense dataset or an opaque other object.
- Store.Apply: the h5py error kinds are taken as given: `ValueError` for creating on a taken name, `KeyError` for deleting or linking from a missing one, `OSError` for linking onto a taken name, `TypeError` for a write that does not fit.
- `dataset_kwargs`, `**kwargs`, element dtypes and compression take no part in any decision, so they are absent.
- The element readers and writers `read_elem`, `write_elem`, `read_dataframe`, `read_dataframe_legacy`, `read_dataset`, `_read_legacy_raw`, `strings_to_categoricals` and `_clean_uns` are not modelled. They are named by the plan (`ReadPlan.Reader`, `WritePlan.Step`) but not run, because they live outside this file or do not change a decision modelled here.
- Warnings (the `force_dense` deprecation) and the `report_*_key_on_error` decorators are not modelled. They add messages, not behaviour.
- Matrix: values are generic, and the fill value serves as the zero. NaN and floating-point comparison are not modelled.
- ChunkPlanner.ChunksFrom: `idx_chunks_along_axis` is not part of this model. The planner here is a definition whose windows are consecutive, at most `chunk` long and cover the axis, which is what the callers rely on.
- OverwriteGuard.FillOps: `value[idx].toarray()` is modelled as the window of `toarray()` of the whole value. The two are equal, and no partial sparse slicing is modelled.
- OverwriteGuard.CompressedAxis: only in-memory CSR and CSC matrices are modelled. COO and other `spmatrix` classes are not.
- Options.Canonical: an unhashable `as_sparse` entry (a list) raises `TypeError` in the set-membership test. Only strings and tuples of strings are modelled.
- TempKey.IsWordChar: `\w` is ASCII only. Unicode word characters are not modelled.
- ReadPlan.ReadRaw: the two-turn loop over `var` and `varm` is written out as a function, and its result is the raw dictionary before `_read_legacy_raw`.
- ReadPlan.ReadH5ad: `read_h5ad_backed`'s construction of the `AnnData` object is not modelled; its result is the record of what is loaded (`ReadPlan.Loaded`).
- ChunkPlanner.PlanChunks: `idx_chunks_along_axis` is not part of this model, so how it treats a chunk size below 1 is not known here. The model refuses such a size with `ValueError`, and `DenseToSparse.ReadDenseAsSparse`, `ReadDenseAsCsr` and `ReadDenseAsCsc` pass that failure on. `ChunkPlanner.ChunksFrom` and the lemmas over it require a size of at least 1. For every size of at least 1, `DenseToSparse.ChunkSizeInvariant` shows that the result does not depend on it.
- Matrix.ToDense: a matrix storing one position twice in a lane, whose values `toarray()` sums, is not modelled. The element type has no addition; only duplicate-free matrices (positions in any order) are densified with a proved meaning.
- OverwriteGuard.WriteSparseAsDense: requires a duplicate-free value, for the same reason; unsorted positions are accepted.
- Store.Run: its meaning is stated by `Store.RunAppend`, `Store.RunSnoc` and `Store.RunFrame`, not by an `ensures` of its own.
- TempKey.Sub: its meaning is stated by `TempKey.SubSpec` and `TempKey.SubLast`, not by an `ensures` of its own.
