/** The user-facing options of the entry points, rewritten to a canonical
    form or rejected before any file is opened: `force_dense` / `as_dense`
    of `write_h5ad`, and `backed`, `as_sparse_fmt` / `as_sparse` of
    `read_h5ad`. The only elements that may be written dense or read sparse
    are the main matrix `X` and the raw matrix `raw/X`. */
module Options {
  import opened Errors
  import opened Matrix
  import opened DenseToSparse

  /** The two element names the options accept. */
  predicate Supported(name: string) {
    name == "X" || name == "raw/X"
  }

  /** An argument that is either a single string or a sequence of strings
      (a bare string is taken as a list of one). */
  datatype Names = OneName(name: string) | NameList(names: seq<string>)

  function AsList(n: Names): (xs: seq<string>)
    ensures n.OneName? ==> xs == [n.name]
    ensures n.NameList? ==> xs == n.names
  {
    match n
    case OneName(s) => [s]
    case NameList(ns) => ns
  }

  // ---------------------------------------------------------------------
  // `as_dense`

  /** The position of the first `a` in `xs` (`list.index`). */
  function FirstIndex<U(==)>(xs: seq<U>, a: U): (i: nat)
    requires a in xs
    ensures i < |xs| && xs[i] == a && a !in xs[..i]
  {
    if xs[0] == a then 0
    else
      var i := 1 + FirstIndex(xs[1..], a);
      assert xs[..i] == [xs[0]] + xs[1..][..i - 1];
      i
  }

  /** `xs[xs.index(a)] = b` when `a in xs`; `xs` itself otherwise. */
  function ReplaceFirst<U(==)>(xs: seq<U>, a: U, b: U): seq<U> {
    if a in xs then xs[FirstIndex(xs, a) := b] else xs
  }

  /** The list `as_dense` stands for: `force_dense=True` overrides it with
      `X`, and `raw/X` too when the object has a raw part. */
  function GivenAsDense(forceDense: Option<bool>, asDense: Names, hasRaw: bool): seq<string> {
    if forceDense == Some(true) then (if hasRaw then ["X", "raw/X"] else ["X"]) else AsList(asDense)
  }

  /** Entry `i` of `xs` is the first occurrence of the legacy spelling `raw.X`. */
  predicate FirstLegacy(xs: seq<string>, i: nat)
    requires i < |xs|
  {
    xs[i] == "raw.X" && "raw.X" !in xs[..i]
  }

  /** The normalisation of `write_h5ad`: the first `raw.X` becomes `raw/X`;
      an entry that is then neither `X` nor `raw/X` raises
      `NotImplementedError`; asking for `raw/X` when there is no raw part
      raises `ValueError`. */
  function NormalizeAsDense(forceDense: Option<bool>, asDense: Names, hasRaw: bool): (r: Result<seq<string>>)
    ensures r.Failure? ==> r.error in {NotImplementedError, ValueError}
    ensures r.Success? ==> forall i | 0 <= i < |r.value| :: Supported(r.value[i])
    ensures r.Success? && "raw/X" in r.value ==> hasRaw
  {
    var renamed := ReplaceFirst(GivenAsDense(forceDense, asDense, hasRaw), "raw.X", "raw/X");
    if exists i | 0 <= i < |renamed| :: !Supported(renamed[i]) then Failure(NotImplementedError)
    else if "raw/X" in renamed && !hasRaw then Failure(ValueError)
    else Success(renamed)
  }

  /** The list after the renaming, stated entry by entry: only the first
      `raw.X` is rewritten, every other entry is kept. */
  lemma {:induction false} ReplaceFirstEntries(xs: seq<string>)
    ensures |ReplaceFirst(xs, "raw.X", "raw/X")| == |xs|
    ensures forall i | 0 <= i < |xs| ::
      ReplaceFirst(xs, "raw.X", "raw/X")[i] == if FirstLegacy(xs, i) then "raw/X" else xs[i]
  {
    if "raw.X" in xs {
      var j := FirstIndex(xs, "raw.X");
      forall i | 0 <= i < |xs| ensures FirstLegacy(xs, i) <==> i == j {
        if i < j {
          assert xs[i] != "raw.X" by { assert xs[i] == xs[..j][i]; }
        } else if i > j {
          assert xs[j] == xs[..i][j];
        }
      }
    } else {
      forall i | 0 <= i < |xs| ensures !FirstLegacy(xs, i) {
        assert xs[i] in xs;
      }
    }
  }

  /** `force_dense=True` asks for `X`, and for `raw/X` exactly when there is
      a raw part; it never fails. */
  lemma ForceDense(asDense: Names, hasRaw: bool)
    ensures NormalizeAsDense(Some(true), asDense, hasRaw) == Success(if hasRaw then ["X", "raw/X"] else ["X"])
  {
    var given := GivenAsDense(Some(true), asDense, hasRaw);
    assert "raw.X" != "X" && "raw.X" != "raw/X";
    assert "raw.X" !in given;
  }

  /** A successful normalisation keeps the order and length of the given list,
      rewrites its first `raw.X` to `raw/X`, and yields only `X` and `raw/X`,
      the latter only when there is a raw part. */
  lemma AsDenseSuccess(forceDense: Option<bool>, asDense: Names, hasRaw: bool)
    requires NormalizeAsDense(forceDense, asDense, hasRaw).Success?
    ensures var given := GivenAsDense(forceDense, asDense, hasRaw);
      var r := NormalizeAsDense(forceDense, asDense, hasRaw).value;
      && |r| == |given|
      && (forall i | 0 <= i < |given| :: r[i] == if FirstLegacy(given, i) then "raw/X" else given[i])
      && (forall i | 0 <= i < |r| :: Supported(r[i]))
      && ("raw/X" in r ==> hasRaw)
  {
    ReplaceFirstEntries(GivenAsDense(forceDense, asDense, hasRaw));
  }

  /** `NotImplementedError` exactly when some entry is neither supported nor
      the first `raw.X`; otherwise `ValueError` exactly when `raw/X` (in
      either spelling) is asked for without a raw part. */
  lemma AsDenseErrors(forceDense: Option<bool>, asDense: Names, hasRaw: bool)
    ensures var given := GivenAsDense(forceDense, asDense, hasRaw);
      var r := NormalizeAsDense(forceDense, asDense, hasRaw);
      && (r == Failure(NotImplementedError) <==>
            exists i | 0 <= i < |given| :: !Supported(given[i]) && !FirstLegacy(given, i))
      && (r == Failure(ValueError) <==>
            (forall i | 0 <= i < |given| :: Supported(given[i]) || FirstLegacy(given, i))
            && ("raw/X" in given || "raw.X" in given) && !hasRaw)
  {
    var given := GivenAsDense(forceDense, asDense, hasRaw);
    RenamedSupported(given);
    RenamedAsksRaw(given);
  }

  /** Every renamed entry is supported exactly when every given entry is
      supported or the first `raw.X`. */
  lemma RenamedSupported(given: seq<string>)
    ensures (forall i | 0 <= i < |ReplaceFirst(given, "raw.X", "raw/X")| :: Supported(ReplaceFirst(given, "raw.X", "raw/X")[i]))
        <==> (forall i | 0 <= i < |given| :: Supported(given[i]) || FirstLegacy(given, i))
  {
    ReplaceFirstEntries(given);
  }

  /** The renamed list asks for `raw/X` exactly when the given one does, in
      either spelling. */
  lemma RenamedAsksRaw(given: seq<string>)
    ensures "raw/X" in ReplaceFirst(given, "raw.X", "raw/X") <==> "raw/X" in given || "raw.X" in given
  {
    var renamed := ReplaceFirst(given, "raw.X", "raw/X");
    ReplaceFirstEntries(given);
    if "raw.X" in given {
      var j := FirstIndex(given, "raw.X");
      assert renamed[j] == "raw/X";
    } else if "raw/X" in given {
      var j :| 0 <= j < |given| && given[j] == "raw/X";
      assert !FirstLegacy(given, j);
      assert renamed[j] == "raw/X";
    }
    if "raw/X" in renamed {
      var j :| 0 <= j < |renamed| && renamed[j] == "raw/X";
      assert given[j] == "raw/X" || given[j] == "raw.X";
    }
  }

  /** Only the first `raw.X` is renamed: a list with two of them is refused
      with `NotImplementedError`. */
  lemma TwoLegacyNames(forceDense: Option<bool>, asDense: Names, hasRaw: bool, i: nat, j: nat)
    requires var given := GivenAsDense(forceDense, asDense, hasRaw);
      i < j < |given| && given[i] == "raw.X" && given[j] == "raw.X"
    ensures NormalizeAsDense(forceDense, asDense, hasRaw) == Failure(NotImplementedError)
  {
    var given := GivenAsDense(forceDense, asDense, hasRaw);
    AsDenseErrors(forceDense, asDense, hasRaw);
    assert given[i] == given[..j][i];
    assert !Supported(given[j]) && !FirstLegacy(given, j);
  }

  // ---------------------------------------------------------------------
  // `as_sparse` and `as_sparse_fmt`

  /** An entry of `as_sparse`: a string, or a tuple of strings. */
  datatype SparseEntry = Name(name: string) | Tuple(items: seq<string>)

  /** The canonical name of an entry: `("raw", "X")`, `raw.X` and `raw/X`
      all mean `raw/X`; `X` means `X`; anything else is not supported. */
  function Canonical(e: SparseEntry): (r: Option<string>)
    ensures r.Some? ==> Supported(r.value)
    ensures r == Some("raw/X") <==> e in {Tuple(["raw", "X"]), Name("raw.X"), Name("raw/X")}
    ensures r == Some("X") <==> e == Name("X")
  {
    if e == Tuple(["raw", "X"]) || e == Name("raw.X") then Some("raw/X")
    else if e == Name("raw/X") || e == Name("X") then Some(e.name)
    else None
  }

  /** The normalised list: every entry replaced by its canonical name, or
      `NotImplementedError` when some entry has none. */
  function CanonicalList(entries: seq<SparseEntry>): (r: Result<seq<SparseEntry>>)
    ensures r.Failure? ==> r.error == NotImplementedError
    ensures r.Success? ==> |r.value| == |entries|
    ensures r.Success? ==> forall i | 0 <= i < |r.value| :: r.value[i].Name? && Supported(r.value[i].name)
  {
    if forall i | 0 <= i < |entries| :: Canonical(entries[i]).Some?
    then Success(seq(|entries|, i requires 0 <= i < |entries| => Name(Canonical(entries[i]).value)))
    else Failure(NotImplementedError)
  }

  /** `as_sparse` as given: a single string or a sequence of entries. */
  datatype SparseArg = OneEntry(s: string) | EntryList(entries: seq<SparseEntry>)

  function EntriesOf(a: SparseArg): seq<SparseEntry> {
    match a
    case OneEntry(s) => [Name(s)]
    case EntryList(es) => es
  }

  /** The loop of `read_h5ad` that rewrites the list in place, entry by
      entry, and raises at the first entry it cannot accept. */
  method NormalizeAsSparse(asSparse: SparseArg) returns (r: Result<seq<SparseEntry>>)
    ensures r == CanonicalList(EntriesOf(asSparse))
  {
    var list: seq<SparseEntry>;
    if asSparse.OneEntry? {
      list := [Name(asSparse.s)];
    } else {
      list := asSparse.entries;
    }
    ghost var given := list;
    var i := 0;
    while i < |list|
      invariant 0 <= i <= |list| == |given|
      invariant forall k | 0 <= k < i :: Canonical(given[k]).Some? && list[k] == Name(Canonical(given[k]).value)
      invariant forall k | i <= k < |list| :: list[k] == given[k]
    {
      if list[i] == Tuple(["raw", "X"]) || list[i] == Name("raw.X") {
        list := list[i := Name("raw/X")];
      } else if !(list[i] == Name("raw/X") || list[i] == Name("X")) {
        assert Canonical(given[i]).None?;
        return Failure(NotImplementedError);
      }
      i := i + 1;
    }
    assert list == seq(|given|, k requires 0 <= k < |given| => Name(Canonical(given[k]).value));
    r := Success(list);
  }

  /** The normalised list has the length of the given one and holds only
      `X` and `raw/X`; it asks for `raw/X` exactly when some given entry is
      one of its three spellings, and for `X` exactly when `X` was given. */
  lemma AsSparseSuccess(entries: seq<SparseEntry>)
    requires CanonicalList(entries).Success?
    ensures var r := CanonicalList(entries).value;
      && |r| == |entries|
      && (forall i | 0 <= i < |r| :: r[i].Name? && Supported(r[i].name))
      && (Name("raw/X") in r <==> exists i | 0 <= i < |entries| ::
            entries[i] in {Tuple(["raw", "X"]), Name("raw.X"), Name("raw/X")})
      && (Name("X") in r <==> Name("X") in entries)
  {
    var r := CanonicalList(entries).value;
    if Name("raw/X") in r {
      var i :| 0 <= i < |r| && r[i] == Name("raw/X");
      assert Canonical(entries[i]) == Some("raw/X");
    }
    if exists i | 0 <= i < |entries| :: entries[i] in {Tuple(["raw", "X"]), Name("raw.X"), Name("raw/X")} {
      var i :| 0 <= i < |entries| && entries[i] in {Tuple(["raw", "X"]), Name("raw.X"), Name("raw/X")};
      assert r[i] == Name("raw/X");
    }
    if Name("X") in r {
      var i :| 0 <= i < |r| && r[i] == Name("X");
      assert entries[i] == Name("X");
    }
    if Name("X") in entries {
      var i :| 0 <= i < |entries| && entries[i] == Name("X");
      assert r[i] == Name("X");
    }
  }

  /** Normalising twice changes nothing. */
  lemma AsSparseIdempotent(entries: seq<SparseEntry>)
    requires CanonicalList(entries).Success?
    ensures CanonicalList(CanonicalList(entries).value) == CanonicalList(entries)
  {
    var r := CanonicalList(entries).value;
    assert forall i | 0 <= i < |r| :: Canonical(r[i]) == Some(r[i].name);
    assert seq(|r|, i requires 0 <= i < |r| => Name(Canonical(r[i]).value)) == r;
  }

  /** The `backed` argument: absent (`None`), a flag, or a mode string. */
  datatype BackedArg = NoBacked | Flag(b: bool) | Mode(mode: string)

  /** How `read_h5ad` goes on once its arguments are checked: a backed read
      in mode `r` or `r+`, or an eager read with the normalised `as_sparse`. */
  datatype ReadMode = BackedRead(mode: string) | EagerRead(asSparse: seq<SparseEntry>, fmt: Format)

  /** The argument checks of `read_h5ad`, in the order they are made: a
      backed read (`True` meaning `r+`) takes only `r` and `r+` and raises
      `AssertionError` otherwise, and ignores the other options; an eager
      read first refuses a class other than `csr_matrix` and `csc_matrix`,
      then normalises the list. */
  function ReadArgs(backed: BackedArg, asSparse: SparseArg, fmt: FormatClass): (r: Result<ReadMode>)
    ensures r.Success? && r.value.BackedRead? ==> r.value.mode in {"r", "r+"}
    ensures r.Success? && r.value.EagerRead? ==>
      forall i | 0 <= i < |r.value.asSparse| :: r.value.asSparse[i].Name? && Supported(r.value.asSparse[i].name)
    ensures r.Failure? ==> r.error in {AssertionError, NotImplementedError}
  {
    if (backed.Flag? && backed.b) || backed.Mode? then
      var mode := if backed.Flag? then "r+" else backed.mode;
      if mode == "r" || mode == "r+" then Success(BackedRead(mode)) else Failure(AssertionError)
    else if fmt.OtherClass? then Failure(NotImplementedError)
    else
      match CanonicalList(EntriesOf(asSparse))
      case Failure(e) => Failure(e)
      case Success(list) => Success(EagerRead(list, if fmt == CsrMatrixClass then Csr else Csc))
  }

  /** The checks made by `read_h5ad` before it opens the file. */
  method CheckReadArgs(backed: BackedArg, asSparse: SparseArg, fmt: FormatClass) returns (r: Result<ReadMode>)
    ensures r == ReadArgs(backed, asSparse, fmt)
  {
    if !(backed.NoBacked? || backed == Flag(false)) {
      var mode := if backed.Flag? then "r+" else backed.mode;
      if !(mode == "r" || mode == "r+") {
        return Failure(AssertionError);
      }
      return Success(BackedRead(mode));
    }
    if fmt.OtherClass? {
      return Failure(NotImplementedError);
    }
    var list := NormalizeAsSparse(asSparse);
    if list.Failure? {
      return Failure(list.error);
    }
    r := Success(EagerRead(list.value, if fmt == CsrMatrixClass then Csr else Csc));
  }

  /** The argument checks, case by case: a backed read never looks at
      `as_sparse` or `as_sparse_fmt`; an unsupported class is refused
      whatever the list holds; otherwise the list decides. */
  lemma ReadArgsCases(backed: BackedArg, asSparse: SparseArg, fmt: FormatClass)
    ensures backed == Flag(true) ==> ReadArgs(backed, asSparse, fmt) == Success(BackedRead("r+"))
    ensures backed.Mode? ==>
      ReadArgs(backed, asSparse, fmt) ==
        if backed.mode in {"r", "r+"} then Success(BackedRead(backed.mode)) else Failure(AssertionError)
    ensures (backed.NoBacked? || backed == Flag(false)) && fmt.OtherClass? ==>
      ReadArgs(backed, asSparse, fmt) == Failure(NotImplementedError)
    ensures (backed.NoBacked? || backed == Flag(false)) && !fmt.OtherClass? ==>
      (ReadArgs(backed, asSparse, fmt).Success? <==>
         forall i | 0 <= i < |EntriesOf(asSparse)| :: Canonical(EntriesOf(asSparse)[i]).Some?)
  {
  }
}
