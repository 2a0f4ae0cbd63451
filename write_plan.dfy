/** What `write_h5ad` writes, in which order and with which writer, once its
    options are checked: the file mode, the root attributes it sets only
    when absent, whether and how `X` is written, how the raw part is
    written, and the fixed order of the remaining elements. */
module WritePlan {
  import opened Errors
  import opened Options

  /** The facts about the object being written that the plan depends on. */
  datatype Facts = Facts(
    isBacked: bool,    // the object is backed by a file
    hasX: bool,        // `_has_X()`
    xSparse: bool,     // `X` is an in-memory or on-disk sparse matrix
    sameFile: bool,    // the backing file is the file being written
    isView: bool,      // the object is a view
    hasRaw: bool,      // the object has a raw part
    rawXSparse: bool)  // the raw matrix is sparse

  /** One element write: through `write_sparse_as_dense`, or `write_elem`. */
  datatype Step = SparseAsDense(key: string) | Elem(key: string)

  /** The file mode, the root attributes after the defaults are set, and
      the element writes in order. */
  datatype Plan = Plan(mode: string, attrs: map<string, string>, steps: seq<Step>)

  /** `attrs.setdefault(k, v)` */
  function SetDefault(attrs: map<string, string>, k: string, v: string): (r: map<string, string>)
    ensures k in r && r[k] == (if k in attrs then attrs[k] else v)
    ensures forall j | j in attrs :: j in r && r[j] == attrs[j]
    ensures forall j | j in r :: j in attrs || j == k
  {
    if k in attrs then attrs else attrs[k := v]
  }

  /** The root attributes after opening: a backed object is written in
      append mode, which keeps the existing attributes; otherwise the file is
      truncated and starts with none. The encoding type and version are then
      set only where absent. */
  function RootAttrs(existing: map<string, string>, isBacked: bool): (r: map<string, string>)
    ensures "encoding-type" in r && "encoding-version" in r
  {
    var start := if isBacked then existing else map[];
    SetDefault(SetDefault(start, "encoding-type", "anndata"), "encoding-version", "0.1.0")
  }

  /** The writes of `X`: none for a backed object without `X`; dense from
      sparse when `X` is asked for dense and is sparse; `write_elem` unless
      the object is backed by this very file and is not a view, for then `X`
      is already up to date in it. */
  function XSteps(a: Facts, asDense: seq<string>): (s: seq<Step>)
    ensures |s| <= 1 && forall i | 0 <= i < |s| :: s[i].key == "X"
  {
    if !a.isBacked || a.hasX then
      if "X" in asDense && a.xSparse then [SparseAsDense("X")]
      else if !(a.isBacked && a.sameFile) || a.isView then [Elem("X")]
      else []
    else []
  }

  /** The writes of the raw part: its matrix dense from sparse followed by
      its `var` and `varm` when `raw/X` is asked for dense and is sparse;
      otherwise the whole raw part with `write_elem`, if there is one. */
  function RawSteps(a: Facts, asDense: seq<string>): (s: seq<Step>)
    ensures |s| <= 3 && forall i | 0 <= i < |s| :: s[i].key in {"raw", "raw/X", "raw/var", "raw/varm"}
    ensures |s| == 3 <==> "raw/X" in asDense && a.rawXSparse
  {
    if "raw/X" in asDense && a.rawXSparse then [SparseAsDense("raw/X"), Elem("raw/var"), Elem("raw/varm")]
    else if a.hasRaw then [Elem("raw")]
    else []
  }

  /** The remaining elements, in the order they are written. */
  const Fields: seq<string> := ["obs", "var", "obsm", "varm", "obsp", "varp", "layers", "uns"]

  function FieldSteps(): (s: seq<Step>)
    ensures |s| == |Fields|
  {
    seq(|Fields|, i requires 0 <= i < |Fields| => Elem(Fields[i]))
  }

  /** `write_h5ad`: the option checks first, then the plan. */
  function WriteH5ad(forceDense: Option<bool>, asDense: Names, a: Facts, existing: map<string, string>): (r: Result<Plan>)
    ensures r.Success? <==> NormalizeAsDense(forceDense, asDense, a.hasRaw).Success?
    ensures r.Success? ==> r.value.mode in {"a", "w"} && (r.value.mode == "a" <==> a.isBacked)
    ensures r.Success? ==> "encoding-type" in r.value.attrs && "encoding-version" in r.value.attrs
    ensures r.Success? ==> 8 <= |r.value.steps| <= 12
  {
    match NormalizeAsDense(forceDense, asDense, a.hasRaw)
    case Failure(e) => Failure(e)
    case Success(dense) =>
      Success(Plan(if a.isBacked then "a" else "w", RootAttrs(existing, a.isBacked),
                   XSteps(a, dense) + RawSteps(a, dense) + FieldSteps()))
  }

  // ---------------------------------------------------------------------
  // Properties

  /** A rejected option fails the write before the file is opened: the
      outcome does not depend on what the file holds. */
  lemma OptionsCheckedFirst(forceDense: Option<bool>, asDense: Names, a: Facts, e1: map<string, string>, e2: map<string, string>)
    requires NormalizeAsDense(forceDense, asDense, a.hasRaw).Failure?
    ensures WriteH5ad(forceDense, asDense, a, e1) == WriteH5ad(forceDense, asDense, a, e2)
    ensures WriteH5ad(forceDense, asDense, a, e1) == Failure(NormalizeAsDense(forceDense, asDense, a.hasRaw).error)
  {
  }

  /** Both encoding attributes are present after the write. A backed object
      keeps every existing root attribute, the encoding ones included, and
      adds only missing defaults; otherwise the attributes are exactly the
      two defaults. */
  lemma RootAttrsSpec(existing: map<string, string>, isBacked: bool)
    ensures var r := RootAttrs(existing, isBacked);
      && "encoding-type" in r && "encoding-version" in r
      && (isBacked ==> forall k | k in existing :: k in r && r[k] == existing[k])
      && (isBacked ==> forall k | k in r :: k in existing || k in {"encoding-type", "encoding-version"})
      && (!isBacked ==> r == map["encoding-type" := "anndata", "encoding-version" := "0.1.0"])
  {
  }

  /** Saving the attributes again in append mode changes nothing: the
      setdefaults leave an already written file's attributes alone. */
  lemma ResaveKeepsAttrs(existing: map<string, string>, isBacked: bool)
    ensures RootAttrs(RootAttrs(existing, isBacked), true) == RootAttrs(existing, isBacked)
  {
    var r := RootAttrs(existing, isBacked);
    RootAttrsSpec(existing, isBacked);
    assert SetDefault(r, "encoding-type", "anndata") == r;
  }

  /** `X` is left unwritten exactly when the object is backed and either has
      no `X`, or is backed by this very file, is not a view and `X` is not
      to be rewritten dense. */
  lemma XSkipped(a: Facts, asDense: seq<string>)
    ensures XSteps(a, asDense) == [] <==>
      a.isBacked && (!a.hasX || (a.sameFile && !a.isView && !("X" in asDense && a.xSparse)))
    ensures |XSteps(a, asDense)| <= 1
    ensures XSteps(a, asDense) == [SparseAsDense("X")] <==>
      (!a.isBacked || a.hasX) && "X" in asDense && a.xSparse
  {
  }

  /** The keys written before the eight fixed elements. */
  predicate PreludeKey(k: string) {
    k == "X" || k == "raw" || k == "raw/X" || k == "raw/var" || k == "raw/varm"
  }

  /** The writes of `X` and of the raw part: at most four, `X` only first,
      no key twice. */
  lemma PreludeSteps(a: Facts, dense: seq<string>)
    ensures var h := XSteps(a, dense) + RawSteps(a, dense);
      && |h| <= 4
      && (forall i | 0 <= i < |h| :: PreludeKey(h[i].key) && (h[i].key == "X" ==> i == 0))
      && (forall i, j | 0 <= i < j < |h| :: h[i].key != h[j].key)
  {
    var x, raw := XSteps(a, dense), RawSteps(a, dense);
    var h := x + raw;
    assert forall i | 0 <= i < |h| :: h[i] == if i < |x| then x[i] else raw[i - |x|];
  }

  /** The eight fixed elements are distinct and none is written before them. */
  lemma FieldKeys()
    ensures forall i | 0 <= i < |Fields| :: FieldSteps()[i] == Elem(Fields[i]) && !PreludeKey(Fields[i])
    ensures forall i, j | 0 <= i < j < |Fields| :: Fields[i] != Fields[j]
  {
  }

  /** The order of a plan made of a prelude and the fixed elements. */
  lemma JoinSteps(head: seq<Step>, fields: seq<Step>, s: seq<Step>)
    requires s == head + fields && |fields| == 8
    requires forall i | 0 <= i < |head| :: PreludeKey(head[i].key) && (head[i].key == "X" ==> i == 0)
    requires forall i, j | 0 <= i < j < |head| :: head[i].key != head[j].key
    requires forall i | 0 <= i < 8 :: !PreludeKey(fields[i].key)
    requires forall i, j | 0 <= i < j < 8 :: fields[i].key != fields[j].key
    ensures |s| >= 8 && forall i | 0 <= i < 8 :: s[|s| - 8 + i] == fields[i]
    ensures forall i | 0 <= i < |s| && s[i].key == "X" :: i == 0
    ensures forall i | 0 <= i < |s| - 8 :: PreludeKey(s[i].key)
    ensures forall i, j | 0 <= i < j < |s| :: s[i].key != s[j].key
  {
    assert forall i | 0 <= i < |s| :: s[i] == if i < |head| then head[i] else fields[i - |head|];
  }

  /** The plan writes `X` first (if at all), then the raw part, then the
      eight remaining elements in their fixed order, and writes no element
      twice. */
  lemma WriteOrder(forceDense: Option<bool>, asDense: Names, a: Facts, existing: map<string, string>)
    requires WriteH5ad(forceDense, asDense, a, existing).Success?
    ensures var s := WriteH5ad(forceDense, asDense, a, existing).value.steps;
      && |s| >= 8
      && (forall i | 0 <= i < 8 :: s[|s| - 8 + i] == Elem(Fields[i]))
      && (forall i | 0 <= i < |s| && s[i].key == "X" :: i == 0)
      && (forall i | 0 <= i < |s| - 8 :: PreludeKey(s[i].key))
      && (forall i, j | 0 <= i < j < |s| :: s[i].key != s[j].key)
  {
    var dense := PlanSteps(forceDense, asDense, a, existing);
    PreludeSteps(a, dense);
    FieldKeys();
    JoinSteps(XSteps(a, dense) + RawSteps(a, dense), FieldSteps(), WriteH5ad(forceDense, asDense, a, existing).value.steps);
  }

  /** A successful plan is the prelude for the normalised list followed by
      the fixed elements. */
  lemma PlanSteps(forceDense: Option<bool>, asDense: Names, a: Facts, existing: map<string, string>) returns (dense: seq<string>)
    requires WriteH5ad(forceDense, asDense, a, existing).Success?
    ensures dense == NormalizeAsDense(forceDense, asDense, a.hasRaw).value
    ensures WriteH5ad(forceDense, asDense, a, existing).value.steps == XSteps(a, dense) + RawSteps(a, dense) + FieldSteps()
  {
    dense := NormalizeAsDense(forceDense, asDense, a.hasRaw).value;
  }

  /** The options decide the dense writes: `X` goes through
      `write_sparse_as_dense` iff it is written at all, is sparse and the
      normalised `as_dense` names it, and so does `raw/X` iff the raw matrix
      is sparse and the list names it; `force_dense=True` therefore writes a
      sparse `X` dense, and a sparse raw matrix too when there is one. */
  lemma DenseWrites(forceDense: Option<bool>, asDense: Names, a: Facts, existing: map<string, string>)
    requires WriteH5ad(forceDense, asDense, a, existing).Success?
    ensures var s := WriteH5ad(forceDense, asDense, a, existing).value.steps;
      var dense := NormalizeAsDense(forceDense, asDense, a.hasRaw).value;
      && (SparseAsDense("X") in s <==> (!a.isBacked || a.hasX) && "X" in dense && a.xSparse)
      && (SparseAsDense("raw/X") in s <==> "raw/X" in dense && a.rawXSparse)
      && (forceDense == Some(true) && (!a.isBacked || a.hasX) && a.xSparse ==> SparseAsDense("X") in s)
      && (forceDense == Some(true) && a.hasRaw && a.rawXSparse ==> SparseAsDense("raw/X") in s)
  {
    var dense := PlanSteps(forceDense, asDense, a, existing);
    var x, raw, fields := XSteps(a, dense), RawSteps(a, dense), FieldSteps();
    var s := WriteH5ad(forceDense, asDense, a, existing).value.steps;
    assert s == x + raw + fields;
    assert forall i | 0 <= i < |fields| :: fields[i].Elem?;
    assert SparseAsDense("X") !in raw && SparseAsDense("X") !in fields;
    assert SparseAsDense("raw/X") !in x && SparseAsDense("raw/X") !in fields;
    if forceDense == Some(true) {
      ForceDense(asDense, a.hasRaw);
    }
  }
}
