/** `_CSRNeighboursIterator` and the defaults of `_ABCNeighboursIterator`:
    a cursor `idx` into the stored entries of row `from`, plus the `stopped`
    flag.  The iterator is a value; the matrix it walks is passed to every
    operation. */
module CsrIterators {
  import opened Wrappers
  import opened Csr

  datatype Iter = Iter(from: nat, idx: nat, stopped: bool)

  /** `NeighboursIterator`: a handle owning an inner iterator, or none when
      it is default-constructed. */
  datatype Handle = Handle(inner: Option<Iter>)

  /** The cursor lies within its row, and a cursor at the row end is
      stopped. */
  ghost predicate IterValid(m: Matrix, it: Iter) {
    && Valid(m) && it.from < Size(m)
    && RowStart(m, it.from) <= it.idx <= RowStop(m, it.from)
    && (it.idx == RowStop(m, it.from) ==> it.stopped)
  }

  /** An iterator that has only been stepped forward: it is stopped exactly
      at the row end and otherwise rests on a nonzero coefficient. */
  ghost predicate Steady(m: Matrix, it: Iter)
    requires IterValid(m, it)
  {
    && (it.stopped <==> it.idx == RowStop(m, it.from))
    && (!it.stopped ==> m.coefs[it.idx] != 0.0)
  }

  // ---------------------------------------------------------------------
  // Scans

  /** The constructor's loop: the first position in `[lo, hi)` whose column
      is at least `to`, or `hi`. */
  function ScanAtLeast(cols: seq<nat>, lo: nat, hi: nat, to: nat): (r: nat)
    requires lo <= hi <= |cols|
    ensures lo <= r <= hi
    ensures forall q :: lo <= q < r ==> cols[q] < to
    ensures r < hi ==> to <= cols[r]
    decreases hi - lo
  {
    if lo == hi then hi
    else if to <= cols[lo] then lo
    else ScanAtLeast(cols, lo + 1, hi, to)
  }

  /** The loop of `operator++`: the first position in `[lo, hi)` holding a
      nonzero coefficient, or `hi`. */
  function ScanNonzero(coefs: seq<real>, lo: nat, hi: nat): (r: nat)
    requires lo <= hi <= |coefs|
    ensures lo <= r <= hi
    ensures forall q :: lo <= q < r ==> coefs[q] == 0.0
    ensures r < hi ==> coefs[r] != 0.0
    decreases hi - lo
  {
    if lo == hi then hi
    else if coefs[lo] != 0.0 then lo
    else ScanNonzero(coefs, lo + 1, hi)
  }

  // ---------------------------------------------------------------------
  // Construction

  /** `getNeighboursIterator(from, to)` as written: out_of_range when either
      index is past the size; otherwise the cursor rests on the first stored
      column at least `to`, whatever its coefficient, or is stopped at the
      row end. */
  function NewIterAsWritten(m: Matrix, from: nat, to: nat): (r: Result<Iter, CppError>)
    requires Valid(m)
    ensures r.Failure? <==> from >= Size(m) || to >= Size(m)
    ensures r.Failure? ==> r.error == OutOfRange
    ensures r.Success? ==> IterValid(m, r.value) && r.value.from == from
    ensures r.Success? ==> forall q :: RowStart(m, from) <= q < r.value.idx ==> m.cols[q] < to
    ensures r.Success? ==> (r.value.stopped <==> r.value.idx == RowStop(m, from))
    ensures r.Success? && !r.value.stopped ==> to <= m.cols[r.value.idx]
    ensures r.Success? && to == 0 ==> r.value.idx == RowStart(m, from)
  {
    if from >= Size(m) || to >= Size(m) then Failure(OutOfRange)
    else
      var stop := RowStop(m, from);
      var p := ScanAtLeast(m.cols, RowStart(m, from), stop, to);
      if p < stop then Success(Iter(from, p, false)) else Success(Iter(from, stop, true))
  }

  /** A row whose only entry was zeroed: the iterator as written still
      offers it as a neighbour although the dense view has no such edge. */
  lemma NewIterYieldsZeroEntry()
    ensures var m := Matrix([1, 1], [1], [0.0]);
            && Valid(m)
            && NewIterAsWritten(m, 0, 0) == Success(Iter(0, 0, false))
            && Entry(m, 0, m.cols[0]) == 0.0
  {
    var m := Matrix([1, 1], [1], [0.0]);
    assert RowSorted(m, 0) && RowSorted(m, 1);
    assert ScanAtLeast(m.cols, 0, 1, 0) == 0;
  }

  /** `getNeighboursIterator(from, to)` with the constructor skipping zero
      coefficients the way `operator++` does: the cursor rests on the first
      stored column at least `to` with a nonzero coefficient. */
  function NewIter(m: Matrix, from: nat, to: nat): (r: Result<Iter, CppError>)
    requires Valid(m)
    ensures r.Failure? <==> from >= Size(m) || to >= Size(m)
    ensures r.Failure? ==> r.error == OutOfRange
    ensures r.Success? ==> IterValid(m, r.value) && Steady(m, r.value) && r.value.from == from
    ensures r.Success? ==> forall q :: RowStart(m, from) <= q < r.value.idx ==>
              m.cols[q] < to || m.coefs[q] == 0.0
    ensures r.Success? && !r.value.stopped ==> to <= m.cols[r.value.idx]
  {
    if from >= Size(m) || to >= Size(m) then Failure(OutOfRange)
    else
      var start, stop := RowStart(m, from), RowStop(m, from);
      var p := ScanAtLeast(m.cols, start, stop, to);
      var q := ScanNonzero(m.coefs, p, stop);
      if q < stop then
        assert RowSorted(m, from);
        Success(Iter(from, q, false))
      else Success(Iter(from, stop, true))
  }

  // ---------------------------------------------------------------------
  // Stepping

  /** The iterator rests, stopped, on a nonzero first entry of its row:
      the state `operator--` leaves behind at the row start. */
  predicate Restarts(m: Matrix, it: Iter)
    requires IterValid(m, it)
  {
    it.idx == RowStart(m, it.from) && it.stopped && it.idx < RowStop(m, it.from) && m.coefs[it.idx] != 0.0
  }

  /** `operator++`: nothing at the row end; a cursor left stopped at the row
      start on a nonzero entry is merely restarted; otherwise the cursor moves
      to the next nonzero coefficient of the row, or stops at the row end. */
  function Next(m: Matrix, it: Iter): (r: Iter)
    requires IterValid(m, it)
    ensures IterValid(m, r) && r.from == it.from
    ensures it.idx == RowStop(m, it.from) ==> r == it
    ensures Restarts(m, it) ==> r == it.(stopped := false)
    ensures it.idx < RowStop(m, it.from) && !Restarts(m, it) ==>
              && it.idx < r.idx
              && (forall q :: it.idx < q < r.idx ==> m.coefs[q] == 0.0)
              && Steady(m, r)
  {
    var start, stop := RowStart(m, it.from), RowStop(m, it.from);
    if it.idx >= stop then it
    else if Restarts(m, it) then it.(stopped := false)
    else
      var q := ScanNonzero(m.coefs, it.idx + 1, stop);
      if q < stop then Iter(it.from, q, false) else Iter(it.from, stop, true)
  }

  // ---------------------------------------------------------------------
  // Reading and writing through the cursor

  /** `getTo`: the column under the cursor; the collection's bounds check
      throws out_of_range past the stored entries. */
  function GetTo(m: Matrix, it: Iter): (r: Result<nat, CppError>)
    ensures r.Failure? <==> it.idx >= |m.cols|
    ensures r.Failure? ==> r.error == OutOfRange
    ensures r.Success? ==> r.value == m.cols[it.idx]
  {
    if it.idx >= |m.cols| then Failure(OutOfRange) else Success(m.cols[it.idx])
  }

  /** `getCoef` of the CSR iterator: the coefficient under the cursor. */
  function GetIterCoef(m: Matrix, it: Iter): (r: Result<real, CppError>)
    requires |m.cols| == |m.coefs|
    ensures r.Failure? <==> it.idx >= |m.coefs|
    ensures r.Failure? ==> r.error == OutOfRange
    ensures r.Success? ==> r.value == m.coefs[it.idx]
  {
    if it.idx >= |m.coefs| then Failure(OutOfRange) else Success(m.coefs[it.idx])
  }

  /** The default `getCoef` of `_ABCNeighboursIterator`: the matrix's
      `getCoef(getFrom(), getTo())`. */
  function DefaultIterCoef(m: Matrix, it: Iter): (r: Result<real, CppError>)
    requires Valid(m)
    ensures r.Success? ==> GetTo(m, it).Success? && it.from < Size(m) && GetTo(m, it).value < Size(m)
    ensures r.Success? ==> r.value == Entry(m, it.from, GetTo(m, it).value)
    ensures r.Failure? ==> r.error == OutOfRange
  {
    var to :- GetTo(m, it);
    GetCoef(m, it.from, to)
  }

  /** On an entry of its row the CSR iterator's own `getCoef` reads what the
      default reads through the matrix. */
  lemma IterCoefAgrees(m: Matrix, it: Iter)
    requires IterValid(m, it) && it.idx < RowStop(m, it.from)
    ensures GetIterCoef(m, it) == DefaultIterCoef(m, it)
  {
    EntryStored(m, it.from, it.idx);
  }

  /** `setCoef` of the CSR iterator: overwrite the coefficient under the
      cursor in place, return the previous one, and stop the iterator when
      the new coefficient is 0.  The stored columns and offsets stay. */
  function IterSetCoef(m: Matrix, it: Iter, coef: real): (r: Result<(Matrix, Iter, real), CppError>)
    requires IterValid(m, it)
    ensures r.Failure? <==> it.idx >= |m.coefs|
    ensures r.Failure? ==> r.error == OutOfRange
    ensures r.Success? ==>
              && r.value.0.rows == m.rows && r.value.0.cols == m.cols
              && |r.value.0.coefs| == |m.coefs|
              && r.value.0.coefs[it.idx] == coef
              && (forall q :: 0 <= q < |m.coefs| && q != it.idx ==> r.value.0.coefs[q] == m.coefs[q])
              && r.value.2 == m.coefs[it.idx]
              && r.value.1.from == it.from && r.value.1.idx == it.idx
              && (r.value.1.stopped <==> it.stopped || coef == 0.0)
              && IterValid(r.value.0, r.value.1)
  {
    if it.idx >= |m.coefs| then Failure(OutOfRange)
    else
      var m' := Matrix(m.rows, m.cols, m.coefs[it.idx := coef]);
      assert forall r :: 0 <= r < |m.rows| ==> RowSorted(m, r) == RowSorted(m', r);
      Success((m', if coef == 0.0 then it.(stopped := true) else it, m.coefs[it.idx]))
  }

  /** The default `setCoef` of `_ABCNeighboursIterator`: read the old
      coefficient with `getCoef`, write through the matrix's `setCoef`, stop
      when the new coefficient is 0. */
  function DefaultIterSetCoef(m: Matrix, it: Iter, coef: real): (r: Result<(Matrix, Iter, real), CppError>)
    requires Valid(m)
    ensures r.Success? ==> GetTo(m, it).Success? && it.from < Size(m)
    ensures r.Success? ==> Valid(r.value.0) && Size(r.value.0) == Size(m)
    ensures r.Success? ==> DenseWrite(m, r.value.0, it.from, m.cols[it.idx], coef)
    ensures r.Success? ==> r.value.2 == Entry(m, it.from, m.cols[it.idx])
    ensures r.Success? ==> (r.value.1.stopped <==> it.stopped || coef == 0.0)
  {
    var to :- GetTo(m, it);
    var old_ :- GetCoef(m, it.from, to);
    // `getCoef` succeeded, so both indices are in range and the matrix's
    // `setCoef` is its write.
    var (m', _) := Write(m, it.from, to, coef);
    Success((m', if coef == 0.0 then it.(stopped := true) else it, old_))
  }

  /** On an entry of its row the CSR iterator's in-place `setCoef` changes the
      dense view exactly as the default does through the matrix, and returns
      the same old coefficient. */
  lemma IterSetCoefAgrees(m: Matrix, it: Iter, coef: real)
    requires IterValid(m, it) && it.idx < RowStop(m, it.from)
    ensures IterSetCoef(m, it, coef).Success? && DefaultIterSetCoef(m, it, coef).Success?
    ensures var (m1, it1, old1) := IterSetCoef(m, it, coef).value;
            var (m2, it2, old2) := DefaultIterSetCoef(m, it, coef).value;
            && Valid(m1) && old1 == old2 && it1 == it2
            && forall i, c :: 0 <= i < Size(m) ==> Entry(m1, i, c) == Entry(m2, i, c)
  {
    var (m1, it1, old1) := IterSetCoef(m, it, coef).value;
    var to := m.cols[it.idx];
    assert to < Size(m);
    IterCoefAgrees(m, it);
    OverwriteEntries(m, it.from, to, coef, it.idx);
    assert m1 == Matrix(m.rows, m.cols, m.coefs[it.idx := coef]);
  }

  // ---------------------------------------------------------------------
  // Replacing an iterator

  /** The default `replaceNeighboursIterator`: the handle is assigned a
      fresh `getNeighboursIterator(from, to)`; when that throws, the handle
      is left as it was. */
  function DefaultReplaceIter(m: Matrix, from: nat, to: nat, h: Handle): (r: Result<Handle, CppError>)
    requires Valid(m)
    ensures r.Failure? <==> from >= Size(m) || to >= Size(m)
    ensures r.Failure? ==> r.error == OutOfRange
    ensures r.Success? ==> r.value.inner.Some? && IterValid(m, r.value.inner.value)
    ensures r.Success? ==> r.value.inner.value.from == from
  {
    var it :- NewIterAsWritten(m, from, to);
    Success(Handle(Some(it)))
  }

  /** The CSR override of `replaceNeighboursIterator`: after its own bounds
      check, a handle without an inner iterator gets a fresh one, and
      otherwise the inner iterator is rebuilt in place by the constructor.
      The handle then walks row `from` from its first stored column at
      least `to`. */
  function ReplaceIter(m: Matrix, from: nat, to: nat, h: Handle): (r: Result<Handle, CppError>)
    requires Valid(m)
    ensures r.Failure? <==> from >= Size(m) || to >= Size(m)
    ensures r.Failure? ==> r.error == OutOfRange
    ensures r.Success? ==> r.value.inner.Some? && IterValid(m, r.value.inner.value)
    ensures r.Success? ==> var it := r.value.inner.value;
              && it.from == from
              && (forall q :: RowStart(m, from) <= q < it.idx ==> m.cols[q] < to)
              && (!it.stopped ==> to <= m.cols[it.idx])
  {
    if from >= Size(m) || to >= Size(m) then Failure(OutOfRange)
    else if h.inner.None? then DefaultReplaceIter(m, from, to, h)
    else Success(Handle(Some(NewIterAsWritten(m, from, to).value)))
  }

  /** The override behaves as the default on every handle, and what the
      handle held before does not matter. */
  lemma ReplaceAgrees(m: Matrix, from: nat, to: nat, h: Handle, h': Handle)
    requires Valid(m)
    ensures ReplaceIter(m, from, to, h) == DefaultReplaceIter(m, from, to, h)
    ensures ReplaceIter(m, from, to, h) == ReplaceIter(m, from, to, h')
  {
  }

  // ---------------------------------------------------------------------
  // The `NeighboursIterator` handle

  /** A handle holding an inner iterator that lies within its row. */
  ghost predicate HandleValid(m: Matrix, h: Handle) {
    h.inner.Some? && IterValid(m, h.inner.value)
  }

  /** `getStopped` of the handle: the inner iterator's flag, which is set
      at the row end. */
  function HandleStopped(m: Matrix, h: Handle): (r: bool)
    requires HandleValid(m, h)
    ensures h.inner.value.idx == RowStop(m, h.inner.value.from) ==> r
  {
    h.inner.value.stopped
  }

  /** `getTo` of the handle: the column under the inner cursor. */
  function HandleTo(m: Matrix, h: Handle): (r: Result<nat, CppError>)
    requires HandleValid(m, h)
    ensures r.Failure? <==> h.inner.value.idx >= |m.cols|
    ensures r.Success? ==> r.value < Size(m)
  {
    GetTo(m, h.inner.value)
  }

  /** `getCoef` of the handle: on an entry of its row, the dense view's
      coefficient at the inner iterator's row and column. */
  function HandleCoef(m: Matrix, h: Handle): (r: Result<real, CppError>)
    requires HandleValid(m, h)
    ensures r.Failure? <==> h.inner.value.idx >= |m.coefs|
    ensures h.inner.value.idx < RowStop(m, h.inner.value.from) ==>
              r.Success? && HandleTo(m, h).Success? && r.value == Entry(m, h.inner.value.from, HandleTo(m, h).value)
  {
    var it := h.inner.value;
    if it.idx < RowStop(m, it.from) then EntryStored(m, it.from, it.idx); GetIterCoef(m, it)
    else GetIterCoef(m, it)
  }

  /** `setCoef` of the handle: the inner iterator's write, which changes the
      dense view only at the handle's row and column and returns the old
      coefficient. */
  function HandleSetCoef(m: Matrix, h: Handle, coef: real): (r: Result<(Matrix, Handle, real), CppError>)
    requires HandleValid(m, h)
    ensures r.Failure? <==> h.inner.value.idx >= |m.coefs|
    ensures h.inner.value.idx < RowStop(m, h.inner.value.from) ==>
              && r.Success?
              && Valid(r.value.0) && HandleValid(r.value.0, r.value.1)
              && r.value.0.rows == m.rows && r.value.0.cols == m.cols
              && DenseWrite(m, r.value.0, h.inner.value.from, m.cols[h.inner.value.idx], coef)
              && r.value.2 == Entry(m, h.inner.value.from, m.cols[h.inner.value.idx])
  {
    var it := h.inner.value;
    var (m', it', old_) :- IterSetCoef(m, it, coef);
    if it.idx < RowStop(m, it.from) then
      EntryStored(m, it.from, it.idx);
      OverwriteEntries(m, it.from, m.cols[it.idx], coef, it.idx);
      Success((m', Handle(Some(it')), old_))
    else Success((m', Handle(Some(it')), old_))
  }

  /** Reading back through the handle after a write yields the written
      coefficient, at the same column. */
  lemma HandleWriteRead(m: Matrix, h: Handle, coef: real)
    requires HandleValid(m, h) && h.inner.value.idx < RowStop(m, h.inner.value.from)
    ensures var (m', h', _) := HandleSetCoef(m, h, coef).value;
            && HandleValid(m', h') && h'.inner.value.idx < RowStop(m', h'.inner.value.from)
            && HandleTo(m', h') == HandleTo(m, h)
            && HandleCoef(m', h') == Success(coef)
  {
    var (m', h', _) := HandleSetCoef(m, h, coef).value;
    var it := h.inner.value;
    assert h'.inner.value.idx == it.idx && h'.inner.value.from == it.from;
    assert m'.coefs[it.idx] == coef;
    EntryStored(m', it.from, it.idx);
  }

  /** Prefix `operator++` of the handle: step the inner iterator. */
  function PreIncrement(m: Matrix, h: Handle): (r: Handle)
    requires HandleValid(m, h)
    ensures HandleValid(m, r) && r.inner.value.from == h.inner.value.from
    ensures h.inner.value.idx <= r.inner.value.idx
  {
    Handle(Some(Next(m, h.inner.value)))
  }

  /** Postfix `operator++(int)`: copy the inner iterator, step the handle's
      own, and return a handle holding the copy. */
  function PostIncrement(m: Matrix, h: Handle): (r: (Handle, Handle))
    requires HandleValid(m, h)
    ensures HandleValid(m, r.0) && HandleValid(m, r.1)
    ensures r.1.inner.value == h.inner.value
    ensures r.0.inner.value.from == h.inner.value.from && h.inner.value.idx <= r.0.inner.value.idx
  {
    var copy := h.inner.value;
    (Handle(Some(Next(m, h.inner.value))), Handle(Some(copy)))
  }

  /** Postfix and prefix `++` leave the handle in the same state; the
      postfix form returns what the handle read before the step. */
  lemma PostfixAsPrefix(m: Matrix, h: Handle)
    requires HandleValid(m, h)
    ensures PostIncrement(m, h).0 == PreIncrement(m, h)
    ensures HandleTo(m, PostIncrement(m, h).1) == HandleTo(m, h)
    ensures HandleStopped(m, PostIncrement(m, h).1) == HandleStopped(m, h)
  {
  }
}
