/** What `read_h5ad` and `read_h5ad_backed` read from an open file and with
    which reader: the dispatch of the eager loop over the root keys, the raw
    fields `_read_raw` selects, the attributes of a backed read, and the
    probe of the element type of `X`. The readers themselves (`read_elem`,
    `read_dataframe`, the dense-as-sparse reader) are named, not run. */
module ReadPlan {
  import opened Errors
  import opened Options
  import opened DenseToSparse

  /** An object of the file: a group, an object that carries an element type
      (a dataset), or one that does not. */
  datatype H5Object = Group | Typed(dtype: string) | Untyped

  /** An open file: its root keys in iteration order, every object by its
      full path, and the names of the root attributes. */
  datatype File = File(keys: seq<string>, objects: map<string, H5Object>, attrs: set<string>)

  /** The root keys are listed once each, and are exactly the objects whose
      path has no `/`. */
  predicate WellFormed(f: File) {
    && (forall i | 0 <= i < |f.keys| :: f.keys[i] in f.objects && '/' !in f.keys[i])
    && (forall i, j | 0 <= i < j < |f.keys| :: f.keys[i] != f.keys[j])
    && (forall p | p in f.objects && '/' !in p :: p in f.keys)
  }

  /** The reader an element is handed to. */
  datatype Reader = DenseAsSparse | Dataframe | Elem

  /** `s` starts with `prefix`. */
  predicate StartsWith(s: string, prefix: string) {
    |prefix| <= |s| && s[..|prefix|] == prefix
  }

  /** Root keys of the raw part, current (`raw`) or legacy (`raw.X`,
      `raw.var`, ...): the eager loop leaves them to `_read_raw`. */
  predicate IsRawKey(k: string) {
    k == "raw" || StartsWith(k, "raw.")
  }

  /** The reader of a root key the eager loop does not skip. */
  function Dispatch(k: string, asSparse: seq<SparseEntry>): (r: Reader)
    requires !IsRawKey(k)
    ensures r == DenseAsSparse ==> k == "X"
    ensures r == Dataframe ==> k in {"obs", "var"}
  {
    if k == "X" && Name("X") in asSparse then DenseAsSparse
    else if k == "raw" then assert false; Elem
    else if k == "obs" || k == "var" then Dataframe
    else Elem
  }

  /** What the eager loop reads: every root key but the raw ones, each with
      its reader. */
  function EagerFields(keys: seq<string>, asSparse: seq<SparseEntry>): (d: map<string, Reader>)
    ensures forall k | k in d :: k in keys && !IsRawKey(k)
  {
    map k | k in keys && !IsRawKey(k) :: Dispatch(k, asSparse)
  }

  /** The dispatch, case by case: only `X` can be read as sparse, and only
      when asked for; `obs` and `var` go to the data-frame reader; any other
      key that is not a raw key goes to `read_elem`. */
  lemma DispatchCases(keys: seq<string>, asSparse: seq<SparseEntry>, k: string)
    ensures var d := EagerFields(keys, asSparse);
      && (k in d <==> k in keys && k != "raw" && !StartsWith(k, "raw."))
      && (k in d ==> (d[k] == DenseAsSparse <==> k == "X" && Name("X") in asSparse))
      && (k in d ==> (d[k] == Dataframe <==> k == "obs" || k == "var"))
  {
  }

  /** The eager loop over the root keys, building the dictionary of reads. */
  method EagerReadLoop(keys: seq<string>, asSparse: seq<SparseEntry>) returns (d: map<string, Reader>)
    ensures d == EagerFields(keys, asSparse)
  {
    d := map[];
    for i := 0 to |keys|
      invariant d == EagerFields(keys[..i], asSparse)
    {
      var k := keys[i];
      assert keys[..i + 1] == keys[..i] + [k];
      if k == "raw" || (|k| >= 4 && k[..4] == "raw.") {
        continue;
      }
      if k == "X" && Name("X") in asSparse {
        d := d[k := DenseAsSparse];
      } else if k == "obs" || k == "var" {
        d := d[k := Dataframe];
      } else {
        d := d[k := Elem];
      }
    }
    assert keys[..|keys|] == keys;
  }

  /** The raw fields `_read_raw` reads, keyed `X`, `var` and `varm` for the
      paths `raw/X`, `raw/var` and `raw/varm`: each one that `attrs` names
      and the file has. `raw/X` goes to the dense-as-sparse reader when
      `as_sparse` names it. A non-empty `as_sparse` without that reader
      raises `AssertionError`. */
  function ReadRaw(f: File, asSparse: seq<SparseEntry>, haveReader: bool, attrs: set<string>): (r: Result<map<string, Reader>>)
    ensures r.Failure? <==> |asSparse| > 0 && !haveReader
    ensures r.Failure? ==> r.error == AssertionError
    ensures r.Success? ==> forall v | v in r.value :: v in {"X", "var", "varm"} && v in attrs
  {
    if |asSparse| > 0 && !haveReader then Failure(AssertionError)
    else
      var x: map<string, Reader> :=
        if "X" in attrs && "raw/X" in f.objects
        then map["X" := if Name("raw/X") in asSparse then DenseAsSparse else Elem]
        else map[];
      var withVar := if "var" in attrs && "raw/var" in f.objects then x["var" := Elem] else x;
      Success(if "varm" in attrs && "raw/varm" in f.objects then withVar["varm" := Elem] else withVar)
  }

  /** `_read_raw` reads a field exactly when it is asked for and present, and
      reads `raw/X` as sparse exactly when `as_sparse` names it. */
  lemma ReadRawFields(f: File, asSparse: seq<SparseEntry>, haveReader: bool, attrs: set<string>)
    requires |asSparse| == 0 || haveReader
    ensures var r := ReadRaw(f, asSparse, haveReader, attrs);
      && r.Success?
      && (forall v | v in r.value :: v in {"X", "var", "varm"} && v in attrs && "raw/" + v in f.objects)
      && (forall v | v in {"X", "var", "varm"} && v in attrs && "raw/" + v in f.objects :: v in r.value)
      && ("X" in r.value ==> (r.value["X"] == DenseAsSparse <==> Name("raw/X") in asSparse))
      && (forall v | v in r.value && v != "X" :: r.value[v] == Elem)
  {
    assert "raw/" + "X" == "raw/X" && "raw/" + "var" == "raw/var" && "raw/" + "varm" == "raw/varm";
  }

  /** A backed read asks `_read_raw` for `var` and `varm` only, so `raw/X` is
      never loaded, whatever the file holds. */
  lemma BackedRawNoX(f: File)
    ensures ReadRaw(f, [], false, {"var", "varm"}).Success?
    ensures "X" !in ReadRaw(f, [], false, {"var", "varm"}).value
  {
  }

  /** The element type recorded for `X`: none when there is no `X`; for a
      group, the type of its `data` member (`KeyError` when it has none,
      `AttributeError` when that member carries no type); for an object with
      a type, that type; `ValueError` for any other object. */
  function ProbeDtype(f: File): (r: Result<Option<string>>)
    ensures r.Success? && r.value.Some? ==> "X" in f.objects
    ensures r.Failure? ==> "X" in f.objects && r.error in {KeyError, AttributeError, ValueError}
  {
    if "X" !in f.objects then Success(None)
    else
      match f.objects["X"]
      case Group =>
        if "X/data" !in f.objects then Failure(KeyError)
        else if f.objects["X/data"].Typed? then Success(Some(f.objects["X/data"].dtype))
        else Failure(AttributeError)
      case Typed(t) => Success(Some(t))
      case Untyped => Failure(ValueError)
  }

  /** The probe succeeds exactly when `X` is absent, carries a type, or is a
      group whose `data` carries one, and then reports that type. */
  lemma ProbeDtypeSpec(f: File)
    ensures ProbeDtype(f).Success? <==>
      "X" !in f.objects || f.objects["X"].Typed? ||
      (f.objects["X"] == Group && "X/data" in f.objects && f.objects["X/data"].Typed?)
    ensures ProbeDtype(f) == Success(None) <==> "X" !in f.objects
    ensures ProbeDtype(f).Success? && ProbeDtype(f).value.Some? ==>
      ProbeDtype(f).value.value ==
        if f.objects["X"].Typed? then f.objects["X"].dtype else f.objects["X/data"].dtype
  {
  }

  /** The elements a backed read loads: `obsm`, `varm`, `obsp`, `varp`,
      `uns` and `layers` with `read_elem`, and `obs` and `var` too when the
      file has the `encoding-type` attribute; without it, `obs` and `var`
      go to the data-frame reader for backwards compatibility. `X` is never
      loaded. */
  function BackedFields(f: File): (d: map<string, Reader>)
    ensures "X" !in d && "raw" !in d
    ensures forall k | k in d :: k in f.objects
  {
    var attributes := ["obsm", "varm", "obsp", "varp", "uns", "layers"]
      + (if "encoding-type" in f.attrs then ["obs", "var"] else []);
    var frames: map<string, Reader> :=
      if "encoding-type" in f.attrs then map[]
      else map k | k in {"obs", "var"} && k in f.objects :: Dataframe;
    frames + map k | k in attributes && k in f.objects :: Elem
  }

  /** A backed read loads every present element of the eight, with the
      data-frame reader exactly for `obs` and `var` of a file without the
      encoding attribute, and nothing else. */
  lemma BackedFieldsSpec(f: File, k: string)
    ensures var d := BackedFields(f);
      && (k in d <==> k in {"obs", "var", "obsm", "varm", "obsp", "varp", "uns", "layers"} && k in f.objects)
      && (k in d ==> (d[k] == Dataframe <==> k in {"obs", "var"} && "encoding-type" !in f.attrs))
  {
    var attributes := ["obsm", "varm", "obsp", "varp", "uns", "layers"]
      + (if "encoding-type" in f.attrs then ["obs", "var"] else []);
    if "encoding-type" in f.attrs {
      assert attributes[6] == "obs" && attributes[7] == "var";
    }
    assert attributes[0] == "obsm" && attributes[1] == "varm" && attributes[2] == "obsp";
    assert attributes[3] == "varp" && attributes[4] == "uns" && attributes[5] == "layers";
  }

  /** What a read loads: the elements with their readers, the raw fields,
      and the element type of `X`; `mode` is the backed mode, if any. */
  datatype Loaded = Loaded(mode: Option<string>, fields: map<string, Reader>, raw: map<string, Reader>, dtype: Option<string>)

  /** `read_h5ad` (with `read_h5ad_backed` for a backed read). The argument
      checks come first and fail whatever the file holds, before it is
      opened. */
  method ReadH5ad(backed: BackedArg, asSparse: SparseArg, fmt: FormatClass, f: File) returns (r: Result<Loaded>)
    requires WellFormed(f)
    ensures ReadArgs(backed, asSparse, fmt).Failure? ==> r == Failure(ReadArgs(backed, asSparse, fmt).error)
    ensures ReadArgs(backed, asSparse, fmt).Success? && ProbeDtype(f).Failure? ==> r == Failure(ProbeDtype(f).error)
    ensures r.Success? ==> ReadArgs(backed, asSparse, fmt).Success? && ProbeDtype(f) == Success(r.value.dtype)
    ensures r.Success? ==> forall k | k in r.value.fields :: k in f.objects
    ensures r.Success? && ReadArgs(backed, asSparse, fmt).value.BackedRead? ==>
      && r.value.mode == Some(ReadArgs(backed, asSparse, fmt).value.mode)
      && r.value.fields == BackedFields(f)
      && r.value.raw == ReadRaw(f, [], false, {"var", "varm"}).value
    ensures r.Success? && ReadArgs(backed, asSparse, fmt).value.EagerRead? ==>
      && r.value.mode == None
      && r.value.fields == EagerFields(f.keys, ReadArgs(backed, asSparse, fmt).value.asSparse)
      && r.value.raw == ReadRaw(f, ReadArgs(backed, asSparse, fmt).value.asSparse, true, {"X", "var", "varm"}).value
  {
    var args := CheckReadArgs(backed, asSparse, fmt);
    if args.Failure? {
      return Failure(args.error);
    }
    var fields, raw, mode;
    match args.value {
      case BackedRead(m) =>
        mode := Some(m);
        fields := BackedFields(f);
        BackedRawNoX(f);
        raw := ReadRaw(f, [], false, {"var", "varm"}).value;
      case EagerRead(list, _) =>
        mode := None;
        fields := EagerReadLoop(f.keys, list);
        ReadRawFields(f, list, true, {"X", "var", "varm"});
        raw := ReadRaw(f, list, true, {"X", "var", "varm"}).value;
    }
    var dtype := ProbeDtype(f);
    if dtype.Failure? {
      return Failure(dtype.error);
    }
    r := Success(Loaded(mode, fields, raw, dtype.value));
  }
}
