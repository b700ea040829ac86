/** Concrete page queries over a five-row index with rows deleted out of band. */
module Scenarios {
  import opened Dataset
  import opened Walk
  import opened Server

  /** Five one-field rows "a" .. "e" at positions 0 .. 4. */
  function Letters(): seq<Row>
  {
    [["a"], ["b"], ["c"], ["d"], ["e"]]
  }

  /** The index of a .. e with "b" (position 1) deleted. */
  function WithoutB(): map<int, Row>
  {
    Delete(IndexRows(Letters()), {1})
  }

  /** The index of a .. e with "c" (position 2) deleted. */
  function WithoutC(): map<int, Row>
  {
    Delete(IndexRows(Letters()), {2})
  }

  /** The index of a .. e with "d" and "e" (positions 3 and 4) deleted. */
  function WithoutDE(): map<int, Row>
  {
    Delete(IndexRows(Letters()), {3, 4})
  }

  /**
   * With position 2 deleted, a page of three from 0 exists and skips the
   * gap: it holds a, b, d and the next page starts at 4.
   */
  lemma GapInsidePage()
    ensures |WithoutC()| == 4
    ensures Completable(WithoutC(), 0, 3)
    ensures PageEndsAt(WithoutC(), 0, 3, 4)
    ensures PresentIn(WithoutC(), 0, 4) == [["a"], ["b"], ["d"]]
    ensures forall hi :: PageEndsAt(WithoutC(), 0, 3, hi) ==> hi == 4
  {
    var m := WithoutC();
    assert m.Keys == {0, 1, 3, 4};
    assert PresentIn(m, 0, 1) == [["a"]];
    assert PresentIn(m, 0, 2) == [["a"], ["b"]];
    assert PresentIn(m, 0, 3) == [["a"], ["b"]];
    assert PresentIn(m, 0, 4) == [["a"], ["b"], ["d"]];
    forall hi | PageEndsAt(m, 0, 3, hi)
      ensures hi == 4
    {
      PageEndUnique(m, 0, 3, hi, 4);
    }
  }

  /**
   * With position 1 deleted, a page of two from 0 exists, holds a, c and
   * the next page starts at 3.
   */
  lemma GapAtPageBoundary()
    ensures |WithoutB()| == 4
    ensures Completable(WithoutB(), 0, 2)
    ensures PageEndsAt(WithoutB(), 0, 2, 3)
    ensures PresentIn(WithoutB(), 0, 3) == [["a"], ["c"]]
    ensures forall hi :: PageEndsAt(WithoutB(), 0, 2, hi) ==> hi == 3
  {
    var m := WithoutB();
    assert m.Keys == {0, 2, 3, 4};
    assert PresentIn(m, 0, 1) == [["a"]];
    assert PresentIn(m, 0, 2) == [["a"]];
    assert PresentIn(m, 0, 3) == [["a"], ["c"]];
    forall hi | PageEndsAt(m, 0, 2, hi)
      ensures hi == 3
    {
      PageEndUnique(m, 0, 2, hi, 3);
    }
  }

  /**
   * With only three rows left, no walk from 0 finds five: the query that
   * would otherwise scan forever reports IndexExhausted.
   */
  lemma TooFewRowsLeft()
    ensures |WithoutDE()| == 3
    ensures !Completable(WithoutDE(), 0, 5)
  {
    var m := WithoutDE();
    assert m.Keys == {0, 1, 2};
    assert PresentIn(m, 0, 1) == [["a"]];
    assert PresentIn(m, 0, 2) == [["a"], ["b"]];
    assert PresentIn(m, 0, 3) == [["a"], ["b"], ["c"]];
    forall hi
      ensures |PresentIn(m, 0, hi)| < 5
    {
      if hi <= 3 {
        CountMonotone(m, 0, hi, 3);
      } else {
        PresentInBeyondKeys(m, 0, 3, hi);
      }
    }
  }

  /**
   * The start bound is the size of the index, not one past its largest
   * key.  With position 1 deleted the index has four entries; the page of
   * three from 0 is a, c, d and hands out next_index 4, yet 4 is not a
   * valid start although the record "e" is still there, so following the
   * returned next_index never serves it.
   */
  lemma NextIndexRejectedAfterDelete()
    ensures |WithoutB()| == 4
    ensures Completable(WithoutB(), 0, 3)
    ensures PageEndsAt(WithoutB(), 0, 3, 4)
    ensures PresentIn(WithoutB(), 0, 4) == [["a"], ["c"], ["d"]]
    ensures Present(WithoutB(), 4)
    ensures WithoutB()[4] == ["e"]
  {
    var m := WithoutB();
    assert m.Keys == {0, 2, 3, 4};
    assert PresentIn(m, 0, 1) == [["a"]];
    assert PresentIn(m, 0, 2) == [["a"]];
    assert PresentIn(m, 0, 3) == [["a"], ["c"]];
    assert PresentIn(m, 0, 4) == [["a"], ["c"], ["d"]];
  }

  /**
   * With nothing deleted and a non-empty last row, a one-record page at the
   * last position exists, returns the last row, and its next_index equals
   * the size of the index (itself no longer a valid start).
   */
  lemma LastRecordPage(rows: seq<Row>)
    requires |rows| > 0 && rows[|rows| - 1] != []
    ensures Completable(IndexRows(rows), |rows| - 1, 1)
    ensures PageEndsAt(IndexRows(rows), |rows| - 1, 1, |IndexRows(rows)|)
    ensures PresentIn(IndexRows(rows), |rows| - 1, |rows|) == [rows[|rows| - 1]]
    ensures forall hi {:trigger PageEndsAt(IndexRows(rows), |rows| - 1, 1, hi)} ::
              PageEndsAt(IndexRows(rows), |rows| - 1, 1, hi) ==> hi == |rows|
  {
    var last := |rows| - 1;
    DensePage(rows, last, 1);
    assert rows[last..last + 1] == [rows[last]];
  }

  /**
   * The queries themselves: each answer above is what the page query
   * returns, including the rejection of the next_index it handed out.
   */
  method QueryAnswers()
  {
    var m1 := WithoutC();
    GapInsidePage();
    var r1 := GetHyperIndex(m1, 0, 3);
    assert r1 == Ok(Page(0, [["a"], ["b"], ["d"]], 3, 4));

    var m2 := WithoutB();
    GapAtPageBoundary();
    NextIndexRejectedAfterDelete();
    var r2 := GetHyperIndex(m2, 0, 2);
    assert r2 == Ok(Page(0, [["a"], ["c"]], 2, 3));
    var r3 := GetHyperIndex(m2, 0, 3);
    assert r3 == Ok(Page(0, [["a"], ["c"], ["d"]], 3, 4));
    var r4 := GetHyperIndex(m2, 4, 1);
    assert r4 == Err(InvalidIndex);

    var m3 := WithoutDE();
    TooFewRowsLeft();
    var r5 := GetHyperIndex(m3, 0, 5);
    assert r5 == Err(IndexExhausted);
  }
}
