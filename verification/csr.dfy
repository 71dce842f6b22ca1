/** `CSRAdjacencyMatrix`: a square matrix of coefficients stored row by row.
    `rows[r]` is the end of row `r` in `cols`/`coefs` (the start is
    `rows[r - 1]`, or 0 for the first row); within a row the stored columns
    are strictly increasing.  The three collections are modelled as
    sequences; their allocators and ownership flags are not modelled. */
module Csr {
  import opened Wrappers
  import opened Seqs
  import Algorithms

  datatype Matrix = Matrix(rows: seq<nat>, cols: seq<nat>, coefs: seq<real>)

  /** `getSize`: the number of rows, which is also the number of columns. */
  function Size(m: Matrix): nat {
    |m.rows|
  }

  /** The first stored position of row `r`. */
  function RowStart(m: Matrix, r: nat): nat
    requires r < |m.rows|
  {
    if r == 0 then 0 else m.rows[r - 1]
  }

  /** One past the last stored position of row `r`. */
  function RowStop(m: Matrix, r: nat): nat
    requires r < |m.rows|
  {
    m.rows[r]
  }

  /** The offsets ascend and end exactly at the stored entries. */
  ghost predicate Shaped(m: Matrix) {
    && |m.cols| == |m.coefs|
    && (forall i, j :: 0 <= i <= j < |m.rows| ==> m.rows[i] <= m.rows[j])
    && (if |m.rows| == 0 then |m.cols| == 0 else m.rows[|m.rows| - 1] == |m.cols|)
  }

  /** The stored columns of row `r` are strictly increasing. */
  ghost predicate RowSorted(m: Matrix, r: nat)
    requires Shaped(m) && r < |m.rows|
  {
    forall i, j :: RowStart(m, r) <= i < j < RowStop(m, r) ==> m.cols[i] < m.cols[j]
  }

  /** The representation invariant every operation keeps. */
  ghost predicate Valid(m: Matrix) {
    && Shaped(m)
    && (forall p :: 0 <= p < |m.cols| ==> m.cols[p] < |m.rows|)
    && (forall r :: 0 <= r < |m.rows| ==> RowSorted(m, r))
  }

  // ---------------------------------------------------------------------
  // The dense view

  /** The coefficient stored for column `c` among positions `[lo, hi)`,
      found by a linear scan; 0 when the column is not stored there. */
  function Find(cols: seq<nat>, coefs: seq<real>, lo: nat, hi: nat, c: nat): real
    requires lo <= hi <= |cols| && |cols| == |coefs|
    decreases hi - lo
  {
    if lo == hi then 0.0
    else if cols[lo] == c then coefs[lo]
    else Find(cols, coefs, lo + 1, hi, c)
  }

  /** The coefficient of edge `r -> c` in the dense matrix the storage
      stands for: 0 unless the column is stored in the row. */
  function Entry(m: Matrix, r: nat, c: nat): real
    requires Shaped(m) && r < |m.rows|
  {
    Find(m.cols, m.coefs, RowStart(m, r), RowStop(m, r), c)
  }

  /** Column `c` is stored in row `r`. */
  ghost predicate Stored(m: Matrix, r: nat, c: nat)
    requires Shaped(m) && r < |m.rows|
  {
    exists p :: RowStart(m, r) <= p < RowStop(m, r) && m.cols[p] == c
  }

  /** The scan stops at the first position holding the column. */
  lemma {:induction false} FindSome(cols: seq<nat>, coefs: seq<real>, lo: nat, hi: nat, c: nat, p: nat)
    requires lo <= p < hi <= |cols| && |cols| == |coefs| && cols[p] == c
    requires forall q :: lo <= q < p ==> cols[q] != c
    ensures Find(cols, coefs, lo, hi, c) == coefs[p]
    decreases p - lo
  {
    if lo < p {
      FindSome(cols, coefs, lo + 1, hi, c, p);
    }
  }

  /** A column stored nowhere in the range reads as 0. */
  lemma {:induction false} FindNone(cols: seq<nat>, coefs: seq<real>, lo: nat, hi: nat, c: nat)
    requires lo <= hi <= |cols| && |cols| == |coefs|
    requires forall q :: lo <= q < hi ==> cols[q] != c
    ensures Find(cols, coefs, lo, hi, c) == 0.0
    decreases hi - lo
  {
    if lo < hi {
      FindNone(cols, coefs, lo + 1, hi, c);
    }
  }

  /** The scan only looks at the positions holding the column. */
  lemma {:induction false} FindFrame(cols: seq<nat>, coefs: seq<real>, coefs': seq<real>, lo: nat, hi: nat, c: nat)
    requires lo <= hi <= |cols| && |cols| == |coefs| == |coefs'|
    requires forall q :: lo <= q < hi && cols[q] == c ==> coefs'[q] == coefs[q]
    ensures Find(cols, coefs', lo, hi, c) == Find(cols, coefs, lo, hi, c)
    decreases hi - lo
  {
    if lo < hi {
      FindFrame(cols, coefs, coefs', lo + 1, hi, c);
    }
  }

  /** Scanning a range moved up by `d` positions gives the same answer. */
  lemma {:induction false} FindShift(cols: seq<nat>, coefs: seq<real>, cols': seq<nat>, coefs': seq<real>,
                                     lo: nat, hi: nat, d: nat, c: nat)
    requires lo <= hi <= |cols| && |cols| == |coefs| && hi + d <= |cols'| && |cols'| == |coefs'|
    requires forall q :: lo <= q < hi ==> cols'[q + d] == cols[q] && coefs'[q + d] == coefs[q]
    ensures Find(cols', coefs', lo + d, hi + d, c) == Find(cols, coefs, lo, hi, c)
    decreases hi - lo
  {
    if lo < hi {
      FindShift(cols, coefs, cols', coefs', lo + 1, hi, d, c);
    }
  }

  /** `cols'`/`coefs'` are `cols`/`coefs` with `x`/`y` inserted at `idx`. */
  ghost predicate InsertedAt(cols: seq<nat>, coefs: seq<real>, cols': seq<nat>, coefs': seq<real>,
                             idx: nat, x: nat, y: real)
  {
    && idx <= |cols| && |cols| == |coefs| && |cols'| == |coefs'| == |cols| + 1
    && cols'[idx] == x && coefs'[idx] == y
    && (forall q :: 0 <= q < idx ==> cols'[q] == cols[q] && coefs'[q] == coefs[q])
    && (forall q :: idx <= q < |cols| ==> cols'[q + 1] == cols[q] && coefs'[q + 1] == coefs[q])
  }

  /** `InsertAt` on both sequences is such an insertion. */
  lemma InsertAtInserts(cols: seq<nat>, coefs: seq<real>, idx: nat, x: nat, y: real)
    requires idx <= |cols| && |cols| == |coefs|
    ensures InsertedAt(cols, coefs, InsertAt(cols, idx, x), InsertAt(coefs, idx, y), idx, x, y)
  {
  }

  /** One more entry for another column, inserted at `idx`, leaves the
      scan for `c` unchanged. */
  lemma {:induction false} FindPastInserted(cols: seq<nat>, coefs: seq<real>, cols': seq<nat>, coefs': seq<real>,
                                            lo: nat, hi: nat, idx: nat, x: nat, y: real, c: nat)
    requires InsertedAt(cols, coefs, cols', coefs', idx, x, y)
    requires lo <= idx <= hi <= |cols| && x != c
    ensures Find(cols', coefs', lo, hi + 1, c) == Find(cols, coefs, lo, hi, c)
    decreases idx - lo
  {
    if lo == idx {
      assert cols'[lo] != c;
      FindShift(cols, coefs, cols', coefs', lo, hi, 1, c);
    } else {
      assert cols'[lo] == cols[lo] && coefs'[lo] == coefs[lo];
      FindPastInserted(cols, coefs, cols', coefs', lo + 1, hi, idx, x, y, c);
    }
  }

  /** In a sorted row a stored column reads as its own coefficient. */
  lemma EntryStored(m: Matrix, r: nat, p: nat)
    requires Valid(m) && r < |m.rows| && RowStart(m, r) <= p < RowStop(m, r)
    ensures Entry(m, r, m.cols[p]) == m.coefs[p]
  {
    assert RowSorted(m, r);
    FindSome(m.cols, m.coefs, RowStart(m, r), RowStop(m, r), m.cols[p], p);
  }

  /** A column not stored in the row reads as 0. */
  lemma EntryAbsent(m: Matrix, r: nat, c: nat)
    requires Shaped(m) && r < |m.rows| && !Stored(m, r, c)
    ensures Entry(m, r, c) == 0.0
  {
    FindNone(m.cols, m.coefs, RowStart(m, r), RowStop(m, r), c);
  }

  // ---------------------------------------------------------------------
  // Searching a row

  /** The search `at` and `setCoef` call as `bsearchLeftToInsert`, which
      the headers do not define, read as `bsearchRightToInsert` with the
      default `<=`: the upper-bound insertion point of `to` in row `r`.  Every stored
      column before it is at most `to`, every one from it on is greater. */
  function Insertion(m: Matrix, r: nat, to: nat): (idx: nat)
    requires Valid(m) && r < |m.rows|
    ensures RowStart(m, r) <= idx <= RowStop(m, r)
    ensures forall p :: RowStart(m, r) <= p < idx ==> m.cols[p] <= to
    ensures forall p :: idx <= p < RowStop(m, r) ==> m.cols[p] > to
  {
    var start, stop := RowStart(m, r), RowStop(m, r);
    RowPartitioned(m, r, to);
    Algorithms.Bisect<int>(m.cols, to, Algorithms.LessEq, start, stop)
  }

  /** A sorted row is split by `<= to` into a prefix and the rest. */
  lemma RowPartitioned(m: Matrix, r: nat, to: nat)
    requires Valid(m) && r < |m.rows|
    ensures Algorithms.Partitioned<int>(m.cols, to, Algorithms.LessEq, RowStart(m, r), RowStop(m, r))
  {
    assert RowSorted(m, r);
    var s: seq<int> := m.cols;
    IncreasingPartitioned(s, to, RowStart(m, r), RowStop(m, r));
  }

  lemma IncreasingPartitioned(s: seq<int>, e: int, lo: nat, hi: nat)
    requires lo <= hi <= |s|
    requires forall i, j :: lo <= i < j < hi ==> s[i] < s[j]
    ensures Algorithms.Partitioned(s, e, Algorithms.LessEq, lo, hi)
  {
    forall i, j | lo <= i < j < hi && !Algorithms.LessEq(s[i], e)
      ensures !Algorithms.LessEq(s[j], e)
    {
      assert s[i] < s[j];
    }
  }

  /** The candidate the search inspects: the position just before the
      insertion point holds `to` exactly when `to` is stored in the row. */
  lemma InsertionFinds(m: Matrix, r: nat, to: nat)
    requires Valid(m) && r < |m.rows|
    ensures var idx := Insertion(m, r, to);
            Stored(m, r, to) <==> idx != RowStart(m, r) && m.cols[idx - 1] == to
  {
    var idx := Insertion(m, r, to);
    if Stored(m, r, to) {
      var p :| RowStart(m, r) <= p < RowStop(m, r) && m.cols[p] == to;
      assert RowSorted(m, r);
      assert p < idx;
      assert m.cols[idx - 1] <= to;
    }
  }

  /** Without `to` in the row, every column before the insertion point is
      below `to`. */
  lemma BelowInsertion(m: Matrix, r: nat, to: nat)
    requires Valid(m) && r < |m.rows| && !Stored(m, r, to)
    ensures forall p :: RowStart(m, r) <= p < Insertion(m, r, to) ==> m.cols[p] < to
  {
    forall p | RowStart(m, r) <= p < Insertion(m, r, to)
      ensures m.cols[p] < to
    {
      assert m.cols[p] != to;
    }
  }

  // ---------------------------------------------------------------------
  // Reading

  /** `at(from, to)`: bisects row `from` for the upper-bound position of
      `to` and reads the coefficient just before it if its column is `to`.
      Reading `rows[from]` past the end is out_of_range; `to` is not
      checked. */
  function At(m: Matrix, from: nat, to: nat): (r: Result<real, CppError>)
    requires Valid(m)
    ensures r.Failure? <==> from >= Size(m)
    ensures r.Failure? ==> r.error == OutOfRange
    ensures r.Success? ==> r.value == Entry(m, from, to)
  {
    if from >= Size(m) then Failure(OutOfRange)
    else if RowStart(m, from) == RowStop(m, from) then
      EntryAbsent(m, from, to);
      Success(0.0)
    else
      var idx := Insertion(m, from, to);
      InsertionFinds(m, from, to);
      if idx == RowStart(m, from) then
        EntryAbsent(m, from, to);
        Success(0.0)
      else if m.cols[idx - 1] == to then
        EntryStored(m, from, idx - 1);
        Success(m.coefs[idx - 1])
      else
        EntryAbsent(m, from, to);
        Success(0.0)
  }

  /** `getCoef(from, to)`: both indices checked against the size, then
      `at`. */
  function GetCoef(m: Matrix, from: nat, to: nat): (r: Result<real, CppError>)
    requires Valid(m)
    ensures r.Failure? <==> from >= Size(m) || to >= Size(m)
    ensures r.Failure? ==> r.error == OutOfRange
    ensures r.Success? ==> r.value == Entry(m, from, to)
  {
    if from >= Size(m) || to >= Size(m) then Failure(OutOfRange) else At(m, from, to)
  }

  // ---------------------------------------------------------------------
  // Writing

  /** The offsets after one entry is inserted into row `from`. */
  function Bumped(rows: seq<nat>, from: nat): (r: seq<nat>)
    ensures |r| == |rows|
    ensures forall i :: 0 <= i < |rows| ==> r[i] == rows[i] + (if i >= from then 1 else 0)
  {
    seq(|rows|, i requires 0 <= i < |rows| => rows[i] + (if i >= from then 1 else 0))
  }

  /** The matrix after the stored coefficient at position `p` is
      overwritten. */
  lemma OverwriteEntries(m: Matrix, from: nat, to: nat, coef: real, p: nat)
    requires Valid(m) && from < |m.rows| && RowStart(m, from) <= p < RowStop(m, from)
    requires m.cols[p] == to
    ensures var m' := Matrix(m.rows, m.cols, m.coefs[p := coef]);
            && Valid(m')
            && forall i, c :: 0 <= i < |m.rows| ==>
                 Entry(m', i, c) == if i == from && c == to then coef else Entry(m, i, c)
  {
    var m' := Matrix(m.rows, m.cols, m.coefs[p := coef]);
    assert forall r :: 0 <= r < |m.rows| ==> RowSorted(m, r) == RowSorted(m', r);
    forall i, c | 0 <= i < |m.rows|
      ensures Entry(m', i, c) == if i == from && c == to then coef else Entry(m, i, c)
    {
      if i == from && c == to {
        EntryStored(m', i, p);
      } else {
        if i != from {
          assert RowStop(m, i) <= p || p < RowStart(m, i) by {
            if i < from {
              assert m.rows[i] <= RowStart(m, from);
            } else {
              assert RowStop(m, from) <= m.rows[i - 1];
            }
          }
        }
        FindFrame(m.cols, m.coefs, m'.coefs, RowStart(m, i), RowStop(m, i), c);
      }
    }
  }

  /** The offsets of the matrix after an entry is inserted into row `from`. */
  lemma InsertedShape(m: Matrix, from: nat, idx: nat, to: nat, coef: real)
    requires Valid(m) && from < |m.rows| && RowStart(m, from) <= idx <= RowStop(m, from)
    ensures var m' := Matrix(Bumped(m.rows, from), InsertAt(m.cols, idx, to), InsertAt(m.coefs, idx, coef));
            && Shaped(m')
            && (forall r :: 0 <= r < |m.rows| ==>
                  RowStart(m', r) == RowStart(m, r) + (if r > from then 1 else 0)
                  && RowStop(m', r) == RowStop(m, r) + (if r >= from then 1 else 0))
  {
  }

  /** One entry of the dense view after `to` is inserted at `idx` in row
      `from`, where every stored column before `idx` is another one. */
  lemma InsertedEntry(m: Matrix, m': Matrix, from: nat, idx: nat, to: nat, coef: real, i: nat, c: nat)
    requires Shaped(m) && Shaped(m') && from < |m.rows| && i < |m.rows| == |m'.rows|
    requires InsertedAt(m.cols, m.coefs, m'.cols, m'.coefs, idx, to, coef)
    requires RowStart(m, from) <= idx <= RowStop(m, from)
    requires forall p :: RowStart(m, from) <= p < idx ==> m.cols[p] != to
    requires RowStart(m', i) == RowStart(m, i) + (if i > from then 1 else 0)
    requires RowStop(m', i) == RowStop(m, i) + (if i >= from then 1 else 0)
    ensures Entry(m', i, c) == if i == from && c == to then coef else Entry(m, i, c)
  {
    var lo, hi := RowStart(m, i), RowStop(m, i);
    if i < from {
      RowsOrdered(m, i, from);
      FindBeforeInserted(m.cols, m.coefs, m'.cols, m'.coefs, lo, hi, idx, to, coef, c);
    } else if i > from {
      RowsOrdered(m, from, i);
      FindAfterInserted(m.cols, m.coefs, m'.cols, m'.coefs, lo, hi, idx, to, coef, c);
    } else if c == to {
      FindInserted(m.cols, m.coefs, m'.cols, m'.coefs, lo, hi, idx, to, coef);
    } else {
      FindPastInserted(m.cols, m.coefs, m'.cols, m'.coefs, lo, hi, idx, to, coef, c);
    }
  }

  /** A range wholly before the insertion point scans the same. */
  lemma FindBeforeInserted(cols: seq<nat>, coefs: seq<real>, cols': seq<nat>, coefs': seq<real>,
                           lo: nat, hi: nat, idx: nat, x: nat, y: real, c: nat)
    requires InsertedAt(cols, coefs, cols', coefs', idx, x, y)
    requires lo <= hi <= idx
    ensures Find(cols', coefs', lo, hi, c) == Find(cols, coefs, lo, hi, c)
  {
    FindShift(cols, coefs, cols', coefs', lo, hi, 0, c);
  }

  /** A range wholly after the insertion point scans the same one place
      later. */
  lemma FindAfterInserted(cols: seq<nat>, coefs: seq<real>, cols': seq<nat>, coefs': seq<real>,
                          lo: nat, hi: nat, idx: nat, x: nat, y: real, c: nat)
    requires InsertedAt(cols, coefs, cols', coefs', idx, x, y)
    requires idx <= lo <= hi <= |cols|
    ensures Find(cols', coefs', lo + 1, hi + 1, c) == Find(cols, coefs, lo, hi, c)
  {
    FindShift(cols, coefs, cols', coefs', lo, hi, 1, c);
  }

  /** The inserted column, absent before the insertion point, is found
      there. */
  lemma FindInserted(cols: seq<nat>, coefs: seq<real>, cols': seq<nat>, coefs': seq<real>,
                     lo: nat, hi: nat, idx: nat, x: nat, y: real)
    requires InsertedAt(cols, coefs, cols', coefs', idx, x, y)
    requires lo <= idx <= hi <= |cols|
    requires forall p :: lo <= p < idx ==> cols[p] != x
    ensures Find(cols', coefs', lo, hi + 1, x) == y
  {
    FindSome(cols', coefs', lo, hi + 1, x, idx);
  }

  /** An earlier row ends before a later one starts. */
  lemma RowsOrdered(m: Matrix, i: nat, j: nat)
    requires Shaped(m) && i < j < |m.rows|
    ensures RowStart(m, i) <= RowStop(m, i) <= RowStart(m, j) <= RowStop(m, j)
  {
    assert m.rows[i] <= m.rows[j - 1];
  }

  /** The dense view after an entry for `to`, absent before, is inserted at
      its upper-bound position in row `from`. */
  lemma InsertEntries(m: Matrix, from: nat, to: nat, coef: real)
    requires Valid(m) && from < |m.rows| && to < |m.rows| && !Stored(m, from, to)
    ensures var idx := Insertion(m, from, to);
            var m' := Matrix(Bumped(m.rows, from), InsertAt(m.cols, idx, to), InsertAt(m.coefs, idx, coef));
            && Shaped(m')
            && forall i, c :: 0 <= i < |m.rows| ==>
                 Entry(m', i, c) == if i == from && c == to then coef else Entry(m, i, c)
  {
    var idx := Insertion(m, from, to);
    var m' := Matrix(Bumped(m.rows, from), InsertAt(m.cols, idx, to), InsertAt(m.coefs, idx, coef));
    InsertedShape(m, from, idx, to, coef);
    InsertAtInserts(m.cols, m.coefs, idx, to, coef);
    BelowInsertion(m, from, to);
    forall i, c | 0 <= i < |m.rows|
      ensures Entry(m', i, c) == if i == from && c == to then coef else Entry(m, i, c)
    {
      InsertedEntry(m, m', from, idx, to, coef, i, c);
    }
  }

  /** Inserting `x` where it belongs keeps a strictly increasing range
      strictly increasing. */
  lemma SortedInserted(cols: seq<nat>, coefs: seq<real>, cols': seq<nat>, coefs': seq<real>,
                       lo: nat, hi: nat, idx: nat, x: nat, y: real)
    requires InsertedAt(cols, coefs, cols', coefs', idx, x, y)
    requires lo <= idx <= hi <= |cols|
    requires forall i, j :: lo <= i < j < hi ==> cols[i] < cols[j]
    requires forall p :: lo <= p < idx ==> cols[p] < x
    requires forall p :: idx <= p < hi ==> x < cols[p]
    ensures forall i, j :: lo <= i < j < hi + 1 ==> cols'[i] < cols'[j]
  {
    forall i, j | lo <= i < j < hi + 1
      ensures cols'[i] < cols'[j]
    {
      if j < idx {
        assert cols[i] < cols[j];
      } else if j == idx {
        assert cols[i] < x;
      } else if i < idx {
        assert cols[i] < x < cols[j - 1];
      } else if i == idx {
        assert x < cols[j - 1];
      } else {
        assert cols[i - 1] < cols[j - 1];
      }
    }
  }

  /** A range away from the insertion point stays strictly increasing,
      moved by `d`. */
  lemma SortedMoved(cols: seq<nat>, coefs: seq<real>, cols': seq<nat>, coefs': seq<real>,
                    lo: nat, hi: nat, d: nat, idx: nat, x: nat, y: real)
    requires InsertedAt(cols, coefs, cols', coefs', idx, x, y)
    requires lo <= hi <= |cols|
    requires (d == 0 && hi <= idx) || (d == 1 && idx <= lo)
    requires forall i, j :: lo <= i < j < hi ==> cols[i] < cols[j]
    ensures forall i, j :: lo + d <= i < j < hi + d ==> cols'[i] < cols'[j]
  {
    forall i, j | lo + d <= i < j < hi + d
      ensures cols'[i] < cols'[j]
    {
      assert cols'[i] == cols[i - d] && cols'[j] == cols[j - d];
    }
  }

  /** One row of the matrix after the insertion is sorted. */
  lemma InsertedRowSorted(m: Matrix, m': Matrix, from: nat, idx: nat, to: nat, coef: real, i: nat)
    requires Valid(m) && Shaped(m') && from < |m.rows| && i < |m.rows| == |m'.rows|
    requires InsertedAt(m.cols, m.coefs, m'.cols, m'.coefs, idx, to, coef)
    requires RowStart(m, from) <= idx <= RowStop(m, from)
    requires forall p :: RowStart(m, from) <= p < idx ==> m.cols[p] < to
    requires forall p :: idx <= p < RowStop(m, from) ==> to < m.cols[p]
    requires RowStart(m', i) == RowStart(m, i) + (if i > from then 1 else 0)
    requires RowStop(m', i) == RowStop(m, i) + (if i >= from then 1 else 0)
    ensures RowSorted(m', i)
  {
    assert RowSorted(m, i);
    var lo, hi := RowStart(m, i), RowStop(m, i);
    if i < from {
      RowsOrdered(m, i, from);
      SortedMoved(m.cols, m.coefs, m'.cols, m'.coefs, lo, hi, 0, idx, to, coef);
    } else if i > from {
      RowsOrdered(m, from, i);
      SortedMoved(m.cols, m.coefs, m'.cols, m'.coefs, lo, hi, 1, idx, to, coef);
    } else {
      SortedInserted(m.cols, m.coefs, m'.cols, m'.coefs, lo, hi, idx, to, coef);
    }
  }

  /** The matrix with an entry for `to`, absent before, inserted at its
      upper-bound position in row `from`. */
  function InsertEntry(m: Matrix, from: nat, to: nat, coef: real): Matrix
    requires Valid(m) && from < |m.rows|
  {
    var idx := Insertion(m, from, to);
    Matrix(Bumped(m.rows, from), InsertAt(m.cols, idx, to), InsertAt(m.coefs, idx, coef))
  }

  /** Inserting a column absent from the row keeps the matrix valid, adds
      one stored entry, and changes that one edge of the dense view. */
  lemma InsertCase(m: Matrix, from: nat, to: nat, coef: real)
    requires Valid(m) && from < |m.rows| && to < |m.rows| && !Stored(m, from, to)
    ensures var m' := InsertEntry(m, from, to, coef);
            && Valid(m') && |m'.rows| == |m.rows| && |m'.cols| == |m.cols| + 1
            && (forall i :: 0 <= i < |m.rows| ==> m'.rows[i] == m.rows[i] + (if i >= from then 1 else 0))
            && forall i, c :: 0 <= i < |m.rows| ==>
                 Entry(m', i, c) == if i == from && c == to then coef else Entry(m, i, c)
  {
    var idx := Insertion(m, from, to);
    var m' := InsertEntry(m, from, to, coef);
    InsertEntries(m, from, to, coef);
    BelowInsertion(m, from, to);
    InsertAtInserts(m.cols, m.coefs, idx, to, coef);
    InsertedShape(m, from, idx, to, coef);
    forall i | 0 <= i < |m.rows|
      ensures RowSorted(m', i)
    {
      InsertedRowSorted(m, m', from, idx, to, coef, i);
    }
    forall p | 0 <= p < |m'.cols|
      ensures m'.cols[p] < |m'.rows|
    {
      if p < idx {
        assert m'.cols[p] == m.cols[p];
      } else if p > idx {
        assert m'.cols[p] == m.cols[p - 1];
      }
    }
  }

  /** `m'` reads as `m` with edge `from -> to` set to `coef` and every other
      edge unchanged. */
  ghost predicate DenseWrite(m: Matrix, m': Matrix, from: nat, to: nat, coef: real)
    requires Shaped(m) && Shaped(m') && |m'.rows| == |m.rows|
  {
    forall i, c :: 0 <= i < |m.rows| ==>
      Entry(m', i, c) == if i == from && c == to then coef else Entry(m, i, c)
  }

  /** The body of `setCoef` once both indices are known to be in range:
      overwrite the stored coefficient of `to` in row `from`, or, when the
      column is not stored and `coef` is nonzero, insert it at its sorted
      position and move the end of row `from` and of every later row up by
      one.  Also returns the coefficient the edge had. */
  function Write(m: Matrix, from: nat, to: nat, coef: real): (r: (Matrix, real))
    requires Valid(m) && from < Size(m) && to < Size(m)
    ensures Valid(r.0) && Size(r.0) == Size(m)
    ensures r.1 == Entry(m, from, to)
    ensures DenseWrite(m, r.0, from, to, coef)
    ensures Stored(m, from, to) ==> r.0.rows == m.rows && r.0.cols == m.cols
    ensures !Stored(m, from, to) && coef == 0.0 ==> r.0 == m
    ensures !Stored(m, from, to) && coef != 0.0 ==>
              && |r.0.cols| == |m.cols| + 1
              && forall i :: 0 <= i < Size(m) ==> r.0.rows[i] == m.rows[i] + (if i >= from then 1 else 0)
  {
    var idx := Insertion(m, from, to);
    InsertionFinds(m, from, to);
    if idx != RowStart(m, from) && m.cols[idx - 1] == to then
      EntryStored(m, from, idx - 1);
      OverwriteEntries(m, from, to, coef, idx - 1);
      (Matrix(m.rows, m.cols, m.coefs[idx - 1 := coef]), m.coefs[idx - 1])
    else
      EntryAbsent(m, from, to);
      if coef != 0.0 then
        InsertCase(m, from, to, coef);
        (InsertEntry(m, from, to, coef), 0.0)
      else
        (m, 0.0)
  }

  /** `setCoef(from, to, coef)`: out_of_range when either index is past the
      size, otherwise the write above. */
  function SetCoef(m: Matrix, from: nat, to: nat, coef: real): (r: Result<(Matrix, real), CppError>)
    requires Valid(m)
    ensures r.Failure? <==> from >= Size(m) || to >= Size(m)
    ensures r.Failure? ==> r.error == OutOfRange
    ensures r.Success? ==> Valid(r.value.0) && Size(r.value.0) == Size(m)
    ensures r.Success? ==> r.value.1 == Entry(m, from, to) && DenseWrite(m, r.value.0, from, to, coef)
  {
    if from >= Size(m) || to >= Size(m) then Failure(OutOfRange)
    else Success(Write(m, from, to, coef))
  }

  /** Writing back the coefficient just read changes nothing in the dense
      view. */
  lemma SetCoefReadBack(m: Matrix, from: nat, to: nat)
    requires Valid(m) && from < Size(m) && to < Size(m)
    ensures var r := SetCoef(m, from, to, Entry(m, from, to));
            r.Success? && forall i, c :: 0 <= i < Size(m) ==> Entry(r.value.0, i, c) == Entry(m, i, c)
  {
  }

  /** Reading an edge right after writing it gives the written value. */
  lemma GetAfterSet(m: Matrix, from: nat, to: nat, coef: real)
    requires Valid(m) && from < Size(m) && to < Size(m)
    ensures SetCoef(m, from, to, coef).Success?
    ensures GetCoef(SetCoef(m, from, to, coef).value.0, from, to) == Success(coef)
  {
  }
}
