# Deletion-resilient hypermedia pagination

A Dafny model of the page walk of `Server.get_hyper_index` in
`0x00-pagination/3-hypermedia_del_pagination.py`, together with the
positional index `Server.indexed_dataset` that it reads.

- `Dataset` (`dataset.dfy`) holds the record type `Row`, a sequence of string
  fields. `IndexRows` is the positional index: every row of the data set is
  keyed by its 0-based position. `Delete` stands for the out-of-band deletions
  that leave holes in the index; deleting present positions shrinks the
  index's size by one each.
- `Walk` (`walk.dfy`) is the reference description of a page. `Present(m, k)`
  says that position `k` holds a record the walk takes. The key must be in
  the index and its row must be non-empty, because the source tests the
  truthiness of `csv.get(k)`. `PresentIn(m, lo, hi)` lists the present rows in
  `[lo, hi)` in order, and `Positions(m, lo, hi)` lists their positions.
- `Server` (`server.dfy`) holds the page query `GetHyperIndex`. It is an
  imperative cursor loop over an immutable `map<int, Row>`, proved against the
  `Walk` description. `PageEndsAt` says where a page of a given size from a
  given start must stop. `Completable` says whether enough present positions
  remain for such a page.
- `Scenarios` (`scenarios.dfy`) works through concrete queries on a
  five-row index with rows deleted.

The index is a value. A page query therefore cannot change it: the index
after a call is the one passed in.

Divergence is made explicit. The source's inner skip loop has no bound: when
fewer than `page_size` present positions remain at or after the cursor, it
never stops. The model bounds the scan by one past the largest key
(`KeyLimit`). In exactly that case it returns `Err(IndexExhausted)`, and its
contract states so.

The code does not reject `page_size <= 0`: `range(page_size)` is then empty,
so the answer is an empty page with `next_index == index`. `GetHyperIndex`
returns exactly that.

The start check compares `index` with the size of the index, not with one
past its largest key. After a deletion the index is smaller than its key
range, so a query can hand out a `next_index` that the next query rejects
while records remain at or after it. With position 1 of a..e deleted, the
page of three from 0 is a, c, d with `next_index` 4, and a query from 4 is
rejected although "e" is still at position 4 (`NextIndexRejectedAfterDelete`,
and the queries in `Scenarios.QueryAnswers`).

## Model

| member | source | states |
|---|---|---|
| Dataset.Delete | 0x00-pagination/3-hypermedia_del_pagination.py:75-78 | deleting k present positions leaves an index whose size, the bound of the start check, is k smaller |
| Dataset.IndexRows | 0x00-pagination/3-hypermedia_del_pagination.py:49-55 | the index has exactly the keys 0 .. n-1, key i maps to row i, and its size is n; the unused 1000-row truncation plays no part |
| Walk.PositionsExact | 0x00-pagination/3-hypermedia_del_pagination.py:84-88 | a position is taken by the walk over [lo, hi) iff it lies in the range and holds a non-empty row; the taken positions strictly increase |
| Walk.PresentInAtPositions | 0x00-pagination/3-hypermedia_del_pagination.py:85-88 | the collected data has one entry per taken position, and entry j is the row at the j-th taken position |
| Walk.PresentInSplit | 0x00-pagination/3-hypermedia_del_pagination.py:84-88 | walking [lo, mid) then [mid, hi) collects exactly what walking [lo, hi) collects |
| Walk.CountMonotone | 0x00-pagination/3-hypermedia_del_pagination.py:84-88 | advancing the cursor never shrinks what has been collected |
| Walk.CountGrowsAtPresent | 0x00-pagination/3-hypermedia_del_pagination.py:85-88 | passing a present position adds a record to what has been collected |
| Walk.CountAtMostWidth | 0x00-pagination/3-hypermedia_del_pagination.py:84-88 | a walk over [lo, hi) collects at most hi - lo records |
| Walk.PresentInBeyondKeys | 0x00-pagination/3-hypermedia_del_pagination.py:85-86 | past the largest key the skip loop finds nothing more |
| Walk.PresentInDense | 0x00-pagination/3-hypermedia_del_pagination.py:52-88 | with no deletions, a walk over [lo, hi) whose rows are non-empty collects the slice rows[lo..hi]; empty rows outside the range do not matter |
| Server.KeyLimit | 0x00-pagination/3-hypermedia_del_pagination.py:85-86 | the bound for the skip loop is above every key and is one past the largest key (or 0) |
| Server.GetHyperIndex | 0x00-pagination/3-hypermedia_del_pagination.py:57-95 | fails with InvalidIndex iff index is outside [0, size of the index); fails with IndexExhausted iff the source's loop would never end; succeeds iff the index is valid and enough present positions remain, and then echoes index and page_size, returns the present rows of [index, next_index) in order, with max(page_size, 0) records, and next_index one past the last record taken (next_index == index when page_size <= 0) |
| Server.PageEndUnique | 0x00-pagination/3-hypermedia_del_pagination.py:81-88 | next_index is determined by index and page_size, so the answer of a successful query is unique |
| Server.NextIndexLowerBound | 0x00-pagination/3-hypermedia_del_pagination.py:81-88 | next_index >= index + page_size |
| Server.ConsecutivePages | 0x00-pagination/3-hypermedia_del_pagination.py:81-95 | the walk of n1 records from lo and then the walk of n2 records from its next_index concatenate to the walk of n1 + n2 records from lo; whether the second query is accepted depends on the start check (see NextIndexRejectedAfterDelete) |
| Server.DensePage | 0x00-pagination/3-hypermedia_del_pagination.py:52-88 | with no deletions, non-empty rows in [index, index + page_size) and index + page_size <= n, the page exists, ends only at index + page_size and holds rows[index .. index + page_size]; so for index < n the query succeeds with that answer |
| Scenarios.GapInsidePage | 0x00-pagination/3-hypermedia_del_pagination.py:84-88 | on a..e with position 2 deleted (size 4), a page of 3 from 0 exists, is a, b, d and ends only at next_index 4 |
| Scenarios.GapAtPageBoundary | 0x00-pagination/3-hypermedia_del_pagination.py:84-88 | on a..e with position 1 deleted (size 4), a page of 2 from 0 exists, is a, c and ends only at next_index 3 |
| Scenarios.TooFewRowsLeft | 0x00-pagination/3-hypermedia_del_pagination.py:85-86 | with three rows left, no walk from 0 finds five, so the query reports IndexExhausted where the source would loop forever |
| Scenarios.NextIndexRejectedAfterDelete | 0x00-pagination/3-hypermedia_del_pagination.py:75-94 | on a..e with position 1 deleted, the page of 3 from 0 is a, c, d with next_index 4, yet the index has size 4 while position 4 still holds "e", so a query from that next_index is rejected |
| Scenarios.LastRecordPage | 0x00-pagination/3-hypermedia_del_pagination.py:78-94 | with no deletions and a non-empty last row, a one-record page at the last position exists, returns the last row, and ends only at next_index == size of the index |

## Left out

- Reading and parsing the CSV file and dropping its header row (`dataset()`, lines 33-37): this is file I/O and the standard `csv` parser. The row sequence is an input `seq<Row>`.
- The memoisation of `__dataset` and `__indexed_dataset` (lines 22-23, 33, 49): one-shot caching. `IndexRows` is a function, so repeated calls give the same index.
- `truncated_dataset = dataset[:1000]` (line 51): computed and never used, so it has no effect on the index.
- The `type(...) == int` assertions (lines 70-71): Dafny's `int` parameters already satisfy them.
- The start check (line 78) and the type checks (lines 70-71) are Python `assert` statements, which an interpreter run with optimisation (`python -O`) strips. The model treats them as always active.
- Non-termination of the skip loop (lines 85-86): it is replaced by the `IndexExhausted` result, as described above.
- The `DATA_FILE` constant (line 15) and the default argument values (line 57): the caller supplies the rows, `index` and `page_size`.
