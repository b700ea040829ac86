/**
 * The reference description of a page: which positions of a (possibly
 * sparse) positional index a forward walk consumes, and what it collects.
 */
module Walk {
  import opened Dataset

  /**
   * A position holds a record the walk takes: the key is present and its
   * row is non-empty.  A missing key and an empty row are both skipped,
   * matching a truthiness test on the looked-up value.
   */
  predicate Present(m: map<int, Row>, k: int)
  {
    k in m && m[k] != []
  }

  /** The rows at present positions in [lo, hi), in position order. */
  function PresentIn(m: map<int, Row>, lo: int, hi: int): seq<Row>
    decreases hi - lo
  {
    if hi <= lo then []
    else PresentIn(m, lo, hi - 1) + (if Present(m, hi - 1) then [m[hi - 1]] else [])
  }

  /** The present positions in [lo, hi), in increasing order. */
  function Positions(m: map<int, Row>, lo: int, hi: int): seq<int>
    decreases hi - lo
  {
    if hi <= lo then []
    else Positions(m, lo, hi - 1) + (if Present(m, hi - 1) then [hi - 1] else [])
  }

  /**
   * Positions lists exactly the present positions of [lo, hi), each once,
   * strictly increasing: nothing present in the range is skipped.
   */
  lemma {:induction false} PositionsExact(m: map<int, Row>, lo: int, hi: int)
    ensures forall k :: k in Positions(m, lo, hi) <==> lo <= k < hi && Present(m, k)
    ensures forall i, j :: 0 <= i < j < |Positions(m, lo, hi)| ==>
              Positions(m, lo, hi)[i] < Positions(m, lo, hi)[j]
    decreases hi - lo
  {
    if hi > lo {
      PositionsExact(m, lo, hi - 1);
      var prev := Positions(m, lo, hi - 1);
      assert forall i :: 0 <= i < |prev| ==> prev[i] in prev && prev[i] < hi - 1;
    }
  }

  /** The collected rows are the rows at the listed positions, in order. */
  lemma {:induction false} PresentInAtPositions(m: map<int, Row>, lo: int, hi: int)
    ensures |PresentIn(m, lo, hi)| == |Positions(m, lo, hi)|
    ensures forall j :: 0 <= j < |Positions(m, lo, hi)| ==>
              Present(m, Positions(m, lo, hi)[j]) &&
              PresentIn(m, lo, hi)[j] == m[Positions(m, lo, hi)[j]]
    decreases hi - lo
  {
    if hi > lo {
      PresentInAtPositions(m, lo, hi - 1);
    }
  }

  /**
   * Walking [lo, mid) and then [mid, hi) collects the same rows as walking
   * [lo, hi) at once: walks over adjacent ranges concatenate.
   */
  lemma {:induction false} PresentInSplit(m: map<int, Row>, lo: int, mid: int, hi: int)
    requires lo <= mid <= hi
    ensures PresentIn(m, lo, hi) == PresentIn(m, lo, mid) + PresentIn(m, mid, hi)
    decreases hi - mid
  {
    if hi > mid {
      PresentInSplit(m, lo, mid, hi - 1);
    }
  }

  /** Extending the range never removes collected rows. */
  lemma CountMonotone(m: map<int, Row>, lo: int, h1: int, h2: int)
    requires h1 <= h2
    ensures |PresentIn(m, lo, h1)| <= |PresentIn(m, lo, h2)|
  {
    if lo <= h1 {
      PresentInSplit(m, lo, h1, h2);
    }
  }

  /** Extending the range over a present position collects strictly more. */
  lemma CountGrowsAtPresent(m: map<int, Row>, lo: int, h1: int, h2: int)
    requires lo <= h1 < h2
    requires Present(m, h2 - 1)
    ensures |PresentIn(m, lo, h1)| < |PresentIn(m, lo, h2)|
  {
    CountMonotone(m, lo, h1, h2 - 1);
  }

  /** A walk over [lo, hi) collects at most one row per position. */
  lemma {:induction false} CountAtMostWidth(m: map<int, Row>, lo: int, hi: int)
    requires lo <= hi
    ensures |PresentIn(m, lo, hi)| <= hi - lo
    decreases hi - lo
  {
    if hi > lo {
      CountAtMostWidth(m, lo, hi - 1);
    }
  }

  /** Past the largest key nothing more is collected. */
  lemma {:induction false} PresentInBeyondKeys(m: map<int, Row>, lo: int, b: int, hi: int)
    requires forall k :: k in m ==> k < b
    requires b <= hi
    ensures PresentIn(m, lo, hi) == PresentIn(m, lo, b)
    decreases hi - b
  {
    if hi > b {
      assert !Present(m, hi - 1);
      PresentInBeyondKeys(m, lo, b, hi - 1);
    }
  }

  /**
   * With no deletions, a walk over a range of non-empty rows is a slice;
   * empty rows elsewhere in the data set do not matter.
   */
  lemma {:induction false} PresentInDense(rows: seq<Row>, lo: int, hi: int)
    requires 0 <= lo <= hi <= |rows|
    requires forall i :: lo <= i < hi ==> rows[i] != []
    ensures PresentIn(IndexRows(rows), lo, hi) == rows[lo..hi]
    decreases hi - lo
  {
    if hi > lo {
      PresentInDense(rows, lo, hi - 1);
      assert rows[lo..hi] == rows[lo..hi - 1] + [rows[hi - 1]];
    }
  }
}
