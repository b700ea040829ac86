/** The record collection and the dense positional index built over it. */
module Dataset {

  /** One parsed data row: an ordered sequence of string fields. */
  type Row = seq<string>

  /** The positions 0 .. n-1, built one position at a time. */
  ghost function Range(n: nat): set<int>
  {
    if n == 0 then {} else Range(n - 1) + {n - 1}
  }

  lemma {:induction false} RangeFacts(n: nat)
    ensures |Range(n)| == n
    ensures forall i :: i in Range(n) <==> 0 <= i < n
  {
    if n > 0 {
      RangeFacts(n - 1);
      assert n - 1 !in Range(n - 1);
    }
  }

  /**
   * The positional index: every row is keyed by its 0-based position in
   * the sequence.  The whole sequence is indexed, never a truncated prefix,
   * so the index has exactly as many entries as there are rows.
   */
  function IndexRows(rows: seq<Row>): (m: map<int, Row>)
    ensures forall i :: i in m <==> 0 <= i < |rows|
    ensures forall i :: 0 <= i < |rows| ==> m[i] == rows[i]
    ensures |m| == |rows|
  {
    var m := map i | 0 <= i < |rows| :: rows[i];
    RangeFacts(|rows|);
    assert m.Keys == Range(|rows|);
    m
  }

  /**
   * Out-of-band deletion of the rows at the given positions.  Deleting
   * present positions shrinks the index by one entry each, so its size no
   * longer reaches past its largest key.
   */
  function Delete(m: map<int, Row>, gone: set<int>): (m': map<int, Row>)
    ensures gone <= m.Keys ==> |m'| == |m| - |gone|
  {
    var m' := m - gone;
    assert gone <= m.Keys ==> m.Keys == m'.Keys + gone;
    m'
  }
}
