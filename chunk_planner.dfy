/** The chunk planner used by the chunked conversions: it cuts one axis of a
    2-D dataset into consecutive windows of `chunk` positions, the last one
    possibly shorter. */
module ChunkPlanner {
  import opened Errors

  /** The half-open window `[start, stop)` along the chunked axis; the other
      axis is always taken whole. */
  datatype Window = Window(start: nat, stop: nat)

  /** The windows from position `cur` to `total`: a full window while more than
      one chunk remains, then the remainder (empty only when `cur == total`). */
  function ChunksFrom(cur: nat, total: nat, chunk: nat): (ws: seq<Window>)
    requires chunk >= 1 && cur <= total
    ensures |ws| >= 1
    ensures ws[0].start == cur && ws[|ws| - 1].stop == total
    ensures forall k | 0 <= k < |ws| ::
      cur <= ws[k].start <= ws[k].stop <= total && ws[k].stop - ws[k].start <= chunk
    ensures cur < total ==> forall k | 0 <= k < |ws| :: ws[k].start < ws[k].stop
    decreases total - cur
  {
    if cur + chunk < total then [Window(cur, cur + chunk)] + ChunksFrom(cur + chunk, total, chunk)
    else [Window(cur, total)]
  }

  /** The windows covering a whole axis of length `total`. */
  function Chunks(total: nat, chunk: nat): (ws: seq<Window>)
    requires chunk >= 1
    ensures |ws| >= 1 && ws[0].start == 0 && ws[|ws| - 1].stop == total
    ensures forall k | 0 <= k < |ws| :: ws[k].start <= ws[k].stop <= total
  {
    ChunksFrom(0, total, chunk)
  }

  /** The planner as the chunked readers call it, with an unchecked chunk
      size: a size below 1 is refused with `ValueError`, any other gives the
      windows of `Chunks`. */
  function PlanChunks(total: nat, chunk: int): (r: Result<seq<Window>>)
    ensures r.Failure? <==> chunk < 1
    ensures r.Failure? ==> r.error == ValueError
    ensures r.Success? ==> |r.value| >= 1 && r.value[0].start == 0 && r.value[|r.value| - 1].stop == total
  {
    if chunk < 1 then Failure(ValueError) else Success(Chunks(total, chunk))
  }

  /** How far windows `ws[..i]` reach: they cover exactly `[0, Covered(ws, i))`. */
  function Covered(ws: seq<Window>, i: nat): nat
    requires i <= |ws|
  {
    if i == 0 then 0 else ws[i - 1].stop
  }

  /** Each window but the last is a full chunk, and the next one starts where
      it stops. */
  lemma {:induction false} ChunksFromAdjacent(cur: nat, total: nat, chunk: nat, k: nat)
    requires chunk >= 1 && cur <= total && k + 1 < |ChunksFrom(cur, total, chunk)|
    ensures var ws := ChunksFrom(cur, total, chunk);
      ws[k].stop == ws[k + 1].start && ws[k].stop - ws[k].start == chunk
    decreases total - cur
  {
    if k > 0 {
      ChunksFromAdjacent(cur + chunk, total, chunk, k - 1);
    }
  }

  /** Window `i` starts where windows `ws[..i]` stop. */
  lemma ConsecutiveStart(total: nat, chunk: nat, i: nat)
    requires chunk >= 1 && i < |Chunks(total, chunk)|
    ensures Chunks(total, chunk)[i].start == Covered(Chunks(total, chunk), i)
  {
    if i > 0 {
      ChunksFromAdjacent(0, total, chunk, i - 1);
    }
  }

  /** Position `p` lies in window `w`. */
  predicate InWindow(w: Window, p: nat) {
    w.start <= p < w.stop
  }

  /** Some window of `ws` contains position `p`. */
  predicate CoveredBy(ws: seq<Window>, p: nat) {
    exists k | 0 <= k < |ws| :: InWindow(ws[k], p)
  }

  /** Adjacent windows of `ws` are contiguous. */
  predicate Contiguous(ws: seq<Window>) {
    forall k | 0 <= k < |ws| - 1 :: ws[k].stop == ws[k + 1].start
  }

  lemma ChunksContiguous(total: nat, chunk: nat)
    requires chunk >= 1
    ensures Contiguous(Chunks(total, chunk))
  {
    var ws := Chunks(total, chunk);
    forall k | 0 <= k < |ws| - 1 ensures ws[k].stop == ws[k + 1].start {
      ChunksFromAdjacent(0, total, chunk, k);
    }
  }

  /** The windows partition `[0, total)`: they are pairwise disjoint and
      in increasing order, and every position lies in one of them. */
  lemma {:induction false} ChunksPartition(total: nat, chunk: nat)
    requires chunk >= 1
    ensures var ws := Chunks(total, chunk);
      && (forall k, l | 0 <= k < l < |ws| :: ws[k].stop <= ws[l].start)
      && (forall p | 0 <= p < total :: CoveredBy(ws, p))
  {
    var ws := Chunks(total, chunk);
    ChunksContiguous(total, chunk);
    forall k, l | 0 <= k < l < |ws| ensures ws[k].stop <= ws[l].start {
      StartsIncrease(ws, k, l);
    }
    forall p | 0 <= p < total ensures CoveredBy(ws, p) {
      var k := FindWindow(ws, p, |ws| - 1);
      assert InWindow(ws[k], p);
    }
  }

  /** Adjacent-window contiguity carries over to any two windows. */
  lemma {:induction false} StartsIncrease(ws: seq<Window>, k: nat, l: nat)
    requires forall j | 0 <= j < |ws| :: ws[j].start <= ws[j].stop
    requires Contiguous(ws)
    requires k < l < |ws|
    ensures ws[k].stop <= ws[l].start
    decreases l - k
  {
    if k + 1 < l {
      StartsIncrease(ws, k + 1, l);
    }
  }

  /** A position below the stop of window `hi` lies in some window `<= hi`. */
  lemma {:induction false} FindWindow(ws: seq<Window>, p: nat, hi: nat) returns (k: nat)
    requires |ws| >= 1 && ws[0].start == 0 && hi < |ws|
    requires Contiguous(ws)
    requires p < ws[hi].stop
    ensures k <= hi && ws[k].start <= p < ws[k].stop
    decreases hi
  {
    if p >= ws[hi].start {
      k := hi;
    } else {
      k := FindWindow(ws, p, hi - 1);
    }
  }
}
