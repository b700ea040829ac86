/**
 * The deletion-resilient hypermedia paginator: a page query walks forward
 * over the positional index, skipping deleted or empty positions, until it
 * has collected the requested number of records.
 */
module Server {
  import opened Dataset
  import opened Walk

  /** The dictionary a page query answers with. */
  datatype Page = Page(index: int, data: seq<Row>, pageSize: int, nextIndex: int)

  datatype PageError =
    | InvalidIndex    // the start index lies outside [0, size of the index)
    | IndexExhausted  // fewer present positions remain than the page needs

  datatype Result = Ok(page: Page) | Err(error: PageError)

  /** The number of records a page of the requested size holds. */
  function Wanted(pageSize: int): nat
  {
    if pageSize < 0 then 0 else pageSize
  }

  /**
   * hi is where a walk from lo that takes pageSize records stops: the walk
   * has collected the right number of records and hi is one past the last
   * one taken (or lo itself when nothing is taken).
   */
  ghost predicate PageEndsAt(m: map<int, Row>, lo: int, pageSize: int, hi: int)
  {
    && |PresentIn(m, lo, hi)| == Wanted(pageSize)
    && (if pageSize <= 0 then hi == lo else Present(m, hi - 1))
  }

  /** Some forward walk from lo finds at least pageSize present positions. */
  ghost predicate Completable(m: map<int, Row>, lo: int, pageSize: int)
  {
    exists hi :: |PresentIn(m, lo, hi)| >= pageSize
  }

  /** The end of a page is determined by its start and size. */
  lemma PageEndUnique(m: map<int, Row>, lo: int, pageSize: int, h1: int, h2: int)
    requires PageEndsAt(m, lo, pageSize, h1)
    requires PageEndsAt(m, lo, pageSize, h2)
    ensures h1 == h2
  {
    if pageSize > 0 {
      if h1 < h2 {
        CountGrowsAtPresent(m, lo, h1, h2);
      } else if h2 < h1 {
        CountGrowsAtPresent(m, lo, h2, h1);
      }
    }
  }

  /** A page of size n cannot end before n positions past its start. */
  lemma NextIndexLowerBound(m: map<int, Row>, lo: int, pageSize: int, hi: int)
    requires PageEndsAt(m, lo, pageSize, hi)
    ensures hi >= lo + Wanted(pageSize)
  {
    if pageSize > 0 && lo <= hi {
      CountAtMostWidth(m, lo, hi);
    }
  }

  /** A set of keys is empty or has a member (set extensionality). */
  lemma EmptyOrMember(keys: set<int>)
    ensures keys == {} || exists key :: key in keys
  {
    if forall key :: key !in keys {
      assert keys == {};
    }
  }

  /**
   * One past the largest key of the index (0 when no key is non-negative):
   * the bound at which a forward scan gives up.
   */
  method KeyLimit(m: map<int, Row>) returns (lim: int)
    ensures forall k :: k in m ==> k < lim
    ensures lim == 0 || lim - 1 in m
  {
    lim := 0;
    var todo := m.Keys;
    while todo != {}
      invariant todo <= m.Keys
      invariant forall k :: k in m && k !in todo ==> k < lim
      invariant lim == 0 || lim - 1 in m
      decreases todo
    {
      EmptyOrMember(todo);
      var key :| key in todo;
      if key >= lim {
        lim := key + 1;
      }
      todo := todo - {key};
    }
  }

  /**
   * The page query.  The start index must lie in [0, size of the index);
   * the cursor starts there, and for each record wanted it skips absent or
   * empty positions, takes the record at the first present one and steps
   * past it.  Where the unbounded skip would never stop, because too few
   * present positions remain, the query reports IndexExhausted instead.
   */
  method GetHyperIndex(m: map<int, Row>, index: int, pageSize: int) returns (r: Result)
    ensures r == Err(InvalidIndex) <==> !(0 <= index < |m|)
    ensures r == Err(IndexExhausted) <==> 0 <= index < |m| && !Completable(m, index, pageSize)
    ensures r.Ok? <==> 0 <= index < |m| && Completable(m, index, pageSize)
    ensures r.Ok? ==> r.page.index == index && r.page.pageSize == pageSize
    ensures r.Ok? ==> PageEndsAt(m, index, pageSize, r.page.nextIndex)
    ensures r.Ok? ==> r.page.data == PresentIn(m, index, r.page.nextIndex)
  {
    if !(0 <= index < |m|) {
      return Err(InvalidIndex);
    }
    var lim := KeyLimit(m);
    var data: seq<Row> := [];
    var next := index;
    var taken := 0;
    while taken < pageSize
      invariant 0 <= taken <= Wanted(pageSize)
      invariant index <= next
      invariant data == PresentIn(m, index, next)
      invariant |data| == taken
      invariant if taken == 0 then next == index else Present(m, next - 1)
      decreases pageSize - taken
    {
      while next < lim && !Present(m, next)
        invariant index <= next
        invariant data == PresentIn(m, index, next)
        decreases lim - next
      {
        next := next + 1;
      }
      if next >= lim {
        forall hi
          ensures |PresentIn(m, index, hi)| < pageSize
        {
          if hi <= next {
            CountMonotone(m, index, hi, next);
          } else {
            PresentInBeyondKeys(m, index, next, hi);
          }
        }
        return Err(IndexExhausted);
      }
      data := data + [m[next]];
      next := next + 1;
      taken := taken + 1;
    }
    assert |PresentIn(m, index, next)| >= pageSize;
    return Ok(Page(index, data, pageSize, next));
  }

  /**
   * Following next_index: a page of n1 records from lo ending at h1, then a
   * page of n2 records from h1 ending at h2, together are the page of
   * n1 + n2 records from lo, with their data concatenated.
   */
  lemma ConsecutivePages(m: map<int, Row>, lo: int, n1: int, h1: int, n2: int, h2: int)
    requires 0 <= n1 && 0 <= n2
    requires PageEndsAt(m, lo, n1, h1)
    requires PageEndsAt(m, h1, n2, h2)
    ensures PageEndsAt(m, lo, n1 + n2, h2)
    ensures PresentIn(m, lo, h2) == PresentIn(m, lo, h1) + PresentIn(m, h1, h2)
  {
    NextIndexLowerBound(m, lo, n1, h1);
    NextIndexLowerBound(m, h1, n2, h2);
    PresentInSplit(m, lo, h1, h2);
  }

  /**
   * On an index with nothing deleted whose rows in the page's range are
   * non-empty, a page that fits is found, is the plain slice of the rows,
   * and the next page starts right after it.
   */
  lemma DensePage(rows: seq<Row>, index: int, pageSize: int)
    requires 0 <= index && 0 <= pageSize && index + pageSize <= |rows|
    requires forall i :: index <= i < index + pageSize ==> rows[i] != []
    ensures Completable(IndexRows(rows), index, pageSize)
    ensures PageEndsAt(IndexRows(rows), index, pageSize, index + pageSize)
    ensures forall hi :: PageEndsAt(IndexRows(rows), index, pageSize, hi) ==>
              hi == index + pageSize &&
              PresentIn(IndexRows(rows), index, hi) == rows[index..index + pageSize]
  {
    var m := IndexRows(rows);
    PresentInDense(rows, index, index + pageSize);
    forall hi | PageEndsAt(m, index, pageSize, hi)
      ensures hi == index + pageSize
    {
      PageEndUnique(m, index, pageSize, hi, index + pageSize);
    }
  }
}
