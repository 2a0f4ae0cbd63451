// The temporary key `write_sparse_as_dense` writes to when the real key is
// aliased by the value being written: a regular-expression substitution on
// the key with its trailing slashes stripped. The pattern is a greedy
// "anything" group followed by a word character with no slash after it on
// the same line (the "anything" and the look-ahead do not cross a newline),
// and the replacement puts `_` between the two groups. So on each line the
// match ends at the last word character that has no `/` after it, and `_` is
// inserted in front of that character; lines without one are left alone.
module TempKey {
  import opened Errors

  /** A regular-expression word character, restricted to ASCII: letters, digits and `_`. */
  predicate IsWordChar(c: char) {
    ('a' <= c <= 'z') || ('A' <= c <= 'Z') || ('0' <= c <= '9') || c == '_'
  }

  /** `key.rstrip("/")`: `s` without its trailing run of `/`. */
  function RStripSlash(s: string): (r: string)
    ensures |r| <= |s| && r == s[..|r|]
    ensures r == [] || r[|r| - 1] != '/'
    ensures forall i | |r| <= i < |s| :: s[i] == '/'
  {
    if s != [] && s[|s| - 1] == '/' then RStripSlash(s[..|s| - 1]) else s
  }

  /** Position `i` of `line` is where the pattern's word character can sit:
      a word character with no `/` after it. */
  predicate Marked(line: string, i: nat) {
    i < |line| && IsWordChar(line[i]) && '/' !in line[i + 1..]
  }

  predicate HasMark(line: string) {
    exists i: nat | i < |line| :: Marked(line, i)
  }

  /** The last marked position below `n`, found by scanning down from `n - 1`
      (what the greedy `(.*)` settles on). */
  function LastMarkBelow(line: string, n: nat): (r: Option<nat>)
    requires n <= |line|
    ensures r.Some? ==> r.value < n && Marked(line, r.value)
    ensures r.Some? ==> forall j: nat | r.value < j < n :: !Marked(line, j)
    ensures r.None? ==> forall j: nat | j < n :: !Marked(line, j)
  {
    if n == 0 then None
    else if Marked(line, n - 1) then Some(n - 1)
    else LastMarkBelow(line, n - 1)
  }

  /** The substitution on one line. */
  function SubLine(line: string): (r: string)
    ensures |line| <= |r| <= |line| + 1
  {
    match LastMarkBelow(line, |line|)
    case None => line
    case Some(i) => line[..i] + "_" + line[i..]
  }

  /** Position of the first newline of `s`, or `|s|` when there is none. */
  function NewlineAt(s: string): (p: nat)
    ensures p <= |s| && '\n' !in s[..p]
    ensures p < |s| ==> s[p] == '\n'
  {
    if s == [] then 0
    else if s[0] == '\n' then 0
    else
      var p := 1 + NewlineAt(s[1..]);
      assert s[..p] == [s[0]] + s[1..][..p - 1];
      p
  }

  /** `re.sub` over the whole string: the substitution applied to each line. */
  function Sub(s: string): (r: string)
    decreases |s|
  {
    var p := NewlineAt(s);
    if p == |s| then SubLine(s) else SubLine(s[..p]) + "\n" + Sub(s[p + 1..])
  }

  /** Every line of `s` is free of marked positions. */
  predicate NoMarkedLine(s: string)
    decreases |s|
  {
    var p := NewlineAt(s);
    if p == |s| then !HasMark(s) else !HasMark(s[..p]) && NoMarkedLine(s[p + 1..])
  }

  /** The temporary key for `key`. */
  function TempKey(key: string): (t: string)
    ensures |t| >= |RStripSlash(key)|
  {
    SubSpec(RStripSlash(key));
    Sub(RStripSlash(key))
  }

  // ---------------------------------------------------------------------
  // Properties

  /** On one line: `_` goes right before the last marked position, and the
      line is unchanged exactly when it has no marked position. */
  lemma SubLineSpec(line: string)
    ensures HasMark(line) ==> exists i: nat | Marked(line, i) ::
      (forall j: nat | i < j < |line| :: !Marked(line, j)) && SubLine(line) == line[..i] + "_" + line[i..]
    ensures !HasMark(line) <==> SubLine(line) == line
    ensures |SubLine(line)| == if HasMark(line) then |line| + 1 else |line|
    ensures line != [] ==> SubLine(line) != [] && SubLine(line)[|SubLine(line)| - 1] == line[|line| - 1]
  {
    match LastMarkBelow(line, |line|)
    case None =>
    case Some(i) =>
      assert Marked(line, i);
  }

  /** The substitution never shortens a string and changes it exactly when
      some line has a marked position. */
  lemma {:induction false} SubSpec(s: string)
    ensures |Sub(s)| >= |s|
    ensures Sub(s) == s <==> NoMarkedLine(s)
    decreases |s|
  {
    var p := NewlineAt(s);
    if p == |s| {
      SubLineSpec(s);
    } else {
      var head, tail := s[..p], s[p + 1..];
      SubSpec(tail);
      SubUnfold(s, p, head, tail);
      JoinSpec(head, tail, Sub(tail), NoMarkedLine(tail), Sub(s), s);
    }
  }

  /** The substitution keeps the last character of a non-empty string: `_`
      is only ever inserted in front of a character. */
  lemma {:induction false} SubLast(s: string)
    requires s != []
    ensures Sub(s) != [] && Sub(s)[|Sub(s)| - 1] == s[|s| - 1]
    decreases |s|
  {
    var p := NewlineAt(s);
    if p == |s| {
      SubLineLast(s);
    } else {
      var head, tail := s[..p], s[p + 1..];
      SubUnfold(s, p, head, tail);
      LastOfJoin(SubLine(head), Sub(tail));
      LastOfJoin(head, tail);
      if tail != [] {
        SubLast(tail);
      }
    }
  }

  /** The substitution on one line keeps its last character. */
  lemma SubLineLast(line: string)
    requires line != []
    ensures SubLine(line) != [] && SubLine(line)[|SubLine(line)| - 1] == line[|line| - 1]
  {
    match LastMarkBelow(line, |line|)
    case None =>
    case Some(i) =>
      var r := line[..i] + "_" + line[i..];
      assert r[|r| - 1] == line[i..][|line| - i - 1];
  }

  /** The last character of two lines joined by a newline. */
  lemma LastOfJoin(a: string, b: string)
    ensures var j := a + "\n" + b; j[|j| - 1] == if b == [] then '\n' else b[|b| - 1]
  {
  }

  /** One unfolding of `Sub` and `NoMarkedLine` at the first newline. */
  lemma SubUnfold(s: string, p: nat, head: string, tail: string)
    requires p == NewlineAt(s) < |s| && head == s[..p] && tail == s[p + 1..]
    ensures Sub(s) == SubLine(head) + "\n" + Sub(tail)
    ensures NoMarkedLine(s) == (!HasMark(head) && NoMarkedLine(tail))
    ensures s == head + "\n" + tail && '\n' !in head
  {
    LineSplit(s, p);
  }

  /** A sequence is its part before `p`, the element at `p` and the rest. */
  lemma LineSplit<U>(s: seq<U>, p: nat)
    requires p < |s|
    ensures s == s[..p] + [s[p]] + s[p + 1..]
  {
  }

  /** Joining a first line to the substituted rest. */
  lemma JoinSpec(head: string, tail: string, subTail: string, tailUnmarked: bool, r: string, whole: string)
    requires '\n' !in head
    requires |subTail| >= |tail| && (subTail == tail <==> tailUnmarked)
    requires r == SubLine(head) + "\n" + subTail && whole == head + "\n" + tail
    ensures |r| >= |whole|
    ensures r == whole <==> !HasMark(head) && tailUnmarked
  {
    SubLineSpec(head);
    if r == whole {
      SubLineNoNewline(head);
      assert SubLine(head) == r[..|head|];
      assert subTail == r[|head| + 1..];
    }
  }

  /** A line with no newline has none after the substitution either. */
  lemma SubLineNoNewline(line: string)
    requires '\n' !in line
    ensures '\n' !in SubLine(line)
  {
    match LastMarkBelow(line, |line|)
    case None =>
    case Some(i) =>
      assert SubLine(line) == line[..i] + "_" + line[i..];
  }

  /** A string with no newline is a single line. */
  lemma OneLine(s: string)
    requires '\n' !in s
    ensures Sub(s) == SubLine(s) && (NoMarkedLine(s) <==> !HasMark(s))
  {
    assert NewlineAt(s) == |s|;
  }

  /** Examples from the source comment: `X -> _X` and `raw/X -> raw/_X`;
      trailing slashes are stripped first. */
  lemma Examples()
    ensures TempKey("X") == "_X"
    ensures TempKey("raw/X") == "raw/_X"
    ensures TempKey("raw/X/") == "raw/_X"
  {
    assert Marked("X", 0);
    assert Marked("raw/X", 4);
    assert RStripSlash("raw/X/") == "raw/X";
  }

  /** The `_` goes in front of the last word character of the final
      segment, not in front of the segment: `raw/ab -> raw/a_b`. */
  lemma LastCharacterExample()
    ensures TempKey("raw/ab") == "raw/a_b"
  {
    var k := "raw/ab";
    assert RStripSlash(k) == k;
    OneLine(k);
    assert Marked(k, 5);
    assert LastMarkBelow(k, |k|) == Some(5);
  }

  /** The temporary key equals the real key exactly when the key has no
      trailing `/` and no line of it has a marked position. */
  lemma TempKeyUnchangedIff(key: string)
    ensures TempKey(key) == key <==> RStripSlash(key) == key && NoMarkedLine(key)
  {
    var r := RStripSlash(key);
    SubSpec(r);
    if r != [] {
      SubLast(r);
    }
  }

  /** For a one-line key whose stripped form has a word character with no
      `/` after it, the temporary key is a different key. */
  lemma TempKeySibling(key: string, i: nat)
    requires '\n' !in key
    requires Marked(RStripSlash(key), i)
    ensures TempKey(key) != key
  {
    var r := RStripSlash(key);
    NoNewlineInPrefix(key, r);
    OneLine(r);
    TempKeyUnchangedIff(key);
  }

  /** Where the `_` goes in such a key: in front of a character at or after
      `i` that has no `/` from it on. */
  lemma TempKeyInsertion(key: string, i: nat) returns (j: nat)
    requires '\n' !in key
    requires Marked(RStripSlash(key), i)
    ensures i <= j < |RStripSlash(key)| && '/' !in RStripSlash(key)[j..]
    ensures TempKey(key) == RStripSlash(key)[..j] + "_" + RStripSlash(key)[j..]
  {
    var r := RStripSlash(key);
    NoNewlineInPrefix(key, r);
    OneLine(r);
    match LastMarkBelow(r, |r|)
    case Some(k) =>
      j := k;
      LineSplit(r, j);
  }

  /** A prefix of a one-line string is one line. */
  lemma NoNewlineInPrefix(s: string, r: string)
    requires '\n' !in s && |r| <= |s| && r == s[..|r|]
    ensures '\n' !in r
  {
    assert forall c | c in r :: c in s;
  }
}
