/** The Python-facing builder of a CSR matrix (`CSRAdjacencyMatrixObject`):
    `__init__` makes an empty matrix of a given size, `add_row` appends the
    nonzero elements of one dense row, `finalize` turns the per-row counts
    into offsets, and `run_reducing` checks its arguments, picks a reducer
    and packs the retained nodes into an index array.

    Python objects are modelled as records: a numpy array is an `NdArray`,
    an exception is a `Refusal` (what went wrong) together with the
    exception type `Raised` gives it.  Argument parsing, reference counting
    and allocation failures are not modelled. */
module CsrBuilder {
  import opened Wrappers
  import opened Csr
  import opened Seqs

  /** `PY_SSIZE_T_MAX + 1`: every `Py_ssize_t` lies in `[-SsizeLimit, SsizeLimit)`. */
  const SsizeLimit: int := 0x8000_0000_0000_0000
  /** `SIZE_MAX + 1`. */
  const SizeModulus: int := 0x1_0000_0000_0000_0000
  /** `NPY_C_CONTIGUOUS`, the flag bit of an array stored in C order. */
  const CContiguous: bv32 := 1

  /** A value `PyArg_ParseTuple` can deliver for the "n" format. */
  predicate IsSsize(i: int) {
    -SsizeLimit <= i < SsizeLimit
  }

  /** The cast `(size_t) i` of a `Py_ssize_t`: negative values wrap around
      to the upper half of the `size_t` range. */
  function ToSize(i: int): (r: nat)
    requires IsSsize(i)
    ensures r % SizeModulus == i % SizeModulus
    ensures 0 <= i ==> r == i
    ensures i < 0 ==> SsizeLimit <= r < SizeModulus
  {
    if i < 0 then i + SizeModulus else i
  }

  // ---------------------------------------------------------------------
  // Python-side values

  datatype Exception = TypeError | ValueError | IndexError

  /** Why a call was refused; each case is one `PyErr_SetString` of the
      builder. */
  datatype Refusal =
    | NotAnArray | NotOneDimensional | NotDouble | LengthMismatch | NotCFormat
    | Descending | RowOutOfRange | AllRowsAdded | AlreadyFinalized
    | NotUIntP | NotFinalized | TooManySources

  /** The exception type each refusal is raised as. */
  function Raised(e: Refusal): Exception {
    match e
    case NotAnArray => TypeError
    case NotDouble => TypeError
    case NotUIntP => TypeError
    case RowOutOfRange => IndexError
    case _ => ValueError
  }

  /** The element types the builder distinguishes. */
  datatype DType = Float64 | UIntP | OtherType

  /** A numpy array argument: whether it is an ndarray at all, its number
      of dimensions, element type and flag word, and its elements in index
      order (for a one-dimensional array `|data|` is its length). */
  datatype NdArray<T> = NdArray(isArray: bool, ndim: nat, dtype: DType, flags: bv32, data: seq<T>)

  /** The C-format test as written, `flags | NPY_C_CONTIGUOUS == 0`: `==`
      binds tighter than `|`, so this is `flags | (NPY_C_CONTIGUOUS == 0)`,
      and the comparison is 0. */
  predicate BadFormatAsWritten(flags: bv32) {
    flags | (if CContiguous == 0 then 1 else 0) != 0
  }

  /** The C-format test as intended: the C-contiguous bit is clear. */
  predicate BadFormat(flags: bv32) {
    flags & CContiguous == 0
  }

  /** The array numpy hands over for one row of a C-ordered 2-D array of
      doubles, as the weight builders pass them. */
  function RowArray(data: seq<real>): NdArray<real> {
    NdArray(true, 1, Float64, CContiguous, data)
  }

  // ---------------------------------------------------------------------
  // The builder object

  /** The object's state: the next row `add_row` accepts, whether the
      matrix was finalized, and the matrix itself.  Before `finalize`,
      `rows[r]` holds the number of entries of row `r` rather than an
      offset. */
  datatype Builder = Builder(nextRowIdx: nat, finalized: bool, matrix: Matrix)

  /** What every reachable object satisfies: the size came from a
      nonnegative `Py_ssize_t`, and rows are added below the size. */
  predicate Sane(b: Builder) {
    Size(b.matrix) < SsizeLimit && b.nextRowIdx <= Size(b.matrix)
  }

  /** `__init__(size)`: `size` rows with no entries; the object starts
      zeroed and not finalized. */
  function New(size: nat): (b: Builder)
    requires size < SsizeLimit
    ensures Sane(b) && Size(b.matrix) == size
    ensures b.nextRowIdx == 0 && !b.finalized
    ensures forall r :: 0 <= r < size ==> b.matrix.rows[r] == 0
    ensures b.matrix.cols == [] && b.matrix.coefs == []
  {
    Builder(0, false, Matrix(seq(size, _ => 0), [], []))
  }

  // ---------------------------------------------------------------------
  // add_row

  /** The columns among the first `k` elements of `data` holding a nonzero
      value, in increasing order: what the add_row loop has appended to
      `cols` after `k` steps. */
  function NonzeroCols(data: seq<real>, k: nat): seq<nat>
    requires k <= |data|
  {
    if k == 0 then [] else NonzeroCols(data, k - 1) + (if data[k - 1] != 0.0 then [k - 1] else [])
  }

  /** The matching values, appended to `coefs` by the same loop. */
  function NonzeroCoefs(data: seq<real>, k: nat): (r: seq<real>)
    requires k <= |data|
    ensures |r| == |NonzeroCols(data, k)|
  {
    if k == 0 then [] else NonzeroCoefs(data, k - 1) + (if data[k - 1] != 0.0 then [data[k - 1]] else [])
  }

  /** The loop keeps only nonzero elements, each value with its own
      column. */
  lemma {:induction false} NonzerosKept(data: seq<real>, k: nat)
    requires k <= |data|
    ensures forall p :: 0 <= p < |NonzeroCols(data, k)| ==>
              && NonzeroCols(data, k)[p] < k && data[NonzeroCols(data, k)[p]] != 0.0
              && NonzeroCoefs(data, k)[p] == data[NonzeroCols(data, k)[p]]
  {
    if k > 0 {
      NonzerosKept(data, k - 1);
    }
  }

  /** The kept columns are strictly increasing. */
  lemma {:induction false} NonzerosAscend(data: seq<real>, k: nat)
    requires k <= |data|
    ensures forall p, q :: 0 <= p < q < |NonzeroCols(data, k)| ==> NonzeroCols(data, k)[p] < NonzeroCols(data, k)[q]
  {
    if k > 0 {
      NonzerosAscend(data, k - 1);
      NonzerosKept(data, k - 1);
    }
  }

  /** Every nonzero element is kept. */
  lemma {:induction false} NonzerosComplete(data: seq<real>, k: nat, c: nat)
    requires c < k <= |data| && data[c] != 0.0
    ensures c in NonzeroCols(data, k)
  {
    var pre := NonzeroCols(data, k - 1);
    var last := if data[k - 1] != 0.0 then [k - 1] else [];
    assert NonzeroCols(data, k) == pre + last;
    if c < k - 1 {
      NonzerosComplete(data, k - 1, c);
      var j :| 0 <= j < |pre| && pre[j] == c;
      assert (pre + last)[j] == c;
    } else {
      assert (pre + last)[|pre|] == c;
    }
  }

  /** The checks of add_row in the order it makes them; `badFormat` is the
      outcome of the C-format test, the one check written wrongly. */
  function RowRefusal(b: Builder, a: NdArray<real>, rowIdx: int, badFormat: bool): Option<Refusal>
    requires IsSsize(rowIdx)
  {
    var n := Size(b.matrix);
    if !a.isArray then Some(NotAnArray)
    else if a.ndim != 1 then Some(NotOneDimensional)
    else if a.dtype != Float64 then Some(NotDouble)
    else if |a.data| != n then Some(LengthMismatch)
    else if badFormat then Some(NotCFormat)
    else if b.nextRowIdx > ToSize(rowIdx) then Some(Descending)
    else if ToSize(rowIdx) >= n then Some(RowOutOfRange)
    else if b.nextRowIdx == n then Some(AllRowsAdded)
    else None
  }

  /** The state after row `row` with elements `data` is stored. */
  function Added(b: Builder, row: nat, data: seq<real>): Builder
    requires row < |b.matrix.rows| && |data| == Size(b.matrix)
  {
    var n := Size(b.matrix);
    Builder(row + 1, b.finalized,
            Matrix(b.matrix.rows[row := |NonzeroCols(data, n)|],
                   b.matrix.cols + NonzeroCols(data, n),
                   b.matrix.coefs + NonzeroCoefs(data, n)))
  }

  /** `add_row(array, rowIdx)` as written: any array with a flag set is
      refused as not being in C format. */
  function AddRowAsWritten(b: Builder, a: NdArray<real>, rowIdx: int): (r: Result<Builder, Refusal>)
    requires Sane(b) && IsSsize(rowIdx)
    ensures a.isArray && a.ndim == 1 && a.dtype == Float64 && |a.data| == Size(b.matrix) && a.flags != 0
            ==> r == Failure(NotCFormat)
    ensures r.Success? ==> Sane(r.value) && r.value.nextRowIdx == rowIdx + 1
  {
    match RowRefusal(b, a, rowIdx, BadFormatAsWritten(a.flags))
    case Some(e) => Failure(e)
    case None => Success(Added(b, ToSize(rowIdx), a.data))
  }

  /** `add_row(array, rowIdx)` with the C-format test corrected. */
  function AddRow(b: Builder, a: NdArray<real>, rowIdx: int): (r: Result<Builder, Refusal>)
    requires Sane(b) && IsSsize(rowIdx)
    ensures r.Failure? <==>
              || !a.isArray || a.ndim != 1 || a.dtype != Float64 || |a.data| != Size(b.matrix)
              || a.flags & CContiguous == 0 || rowIdx < b.nextRowIdx || Size(b.matrix) <= rowIdx
    ensures r.Failure? ==> r.error != AllRowsAdded
    ensures r == Failure(Descending) ==> 0 <= rowIdx < b.nextRowIdx
    ensures r.Failure? && Raised(r.error) == IndexError ==> rowIdx < 0 || Size(b.matrix) <= rowIdx
    ensures b.nextRowIdx == Size(b.matrix) ==> r.Failure?
    ensures r.Success? ==>
              && 0 <= rowIdx && Sane(r.value)
              && r.value.nextRowIdx == rowIdx + 1 && r.value.finalized == b.finalized
              && r.value.matrix.rows == b.matrix.rows[rowIdx := |NonzeroCols(a.data, |a.data|)|]
              && r.value.matrix.cols == b.matrix.cols + NonzeroCols(a.data, |a.data|)
              && r.value.matrix.coefs == b.matrix.coefs + NonzeroCoefs(a.data, |a.data|)
  {
    match RowRefusal(b, a, rowIdx, BadFormat(a.flags))
    case Some(e) => Failure(e)
    case None => Success(Added(b, ToSize(rowIdx), a.data))
  }

  /** The as-written test refuses exactly the arrays with some flag set. */
  lemma BadFormatAsWrittenIsAnyFlag(flags: bv32)
    ensures BadFormatAsWritten(flags) <==> flags != 0
    ensures BadFormatAsWritten(CContiguous) && !BadFormat(CContiguous)
  {
  }

  /** A row handed over exactly as the weight builders do is refused by
      add_row as written and accepted once the test is corrected. */
  lemma ContiguousRowRefused(data: seq<real>)
    requires |data| == 1
    ensures AddRowAsWritten(New(1), RowArray(data), 0) == Failure(NotCFormat)
    ensures AddRow(New(1), RowArray(data), 0).Success?
  {
  }

  // ---------------------------------------------------------------------
  // The dense matrix a builder stands for

  /** `d` is an `n`-by-`n` dense matrix. */
  ghost predicate Dense(d: seq<seq<real>>, n: nat) {
    |d| == n && forall r :: 0 <= r < n ==> |d[r]| == n
  }

  /** The `n`-by-`n` zero matrix. */
  function Zeros(n: nat): seq<seq<real>> {
    seq(n, _ => seq(n, _ => 0.0))
  }

  /** Parts `0..k-1` of `parts` laid end to end. */
  function Concat<T>(parts: seq<seq<T>>, k: nat): seq<T>
    requires k <= |parts|
  {
    if k == 0 then [] else Concat(parts, k - 1) + parts[k - 1]
  }

  /** The nonzero columns of each row of `d`. */
  function RowCols(d: seq<seq<real>>, n: nat): (r: seq<seq<nat>>)
    requires Dense(d, n)
    ensures |r| == n
  {
    seq(n, i requires 0 <= i < n => NonzeroCols(d[i], n))
  }

  /** The nonzero values of each row of `d`. */
  function RowCoefs(d: seq<seq<real>>, n: nat): (r: seq<seq<real>>)
    requires Dense(d, n)
    ensures |r| == n
  {
    seq(n, i requires 0 <= i < n => NonzeroCoefs(d[i], n))
  }

  /** Rows `0..k-1` of `d` packed one after another: the columns. */
  function PackedCols(d: seq<seq<real>>, n: nat, k: nat): seq<nat>
    requires Dense(d, n) && k <= n
  {
    Concat(RowCols(d, n), k)
  }

  /** Rows `0..k-1` of `d` packed one after another: the values, one per
      column. */
  function PackedCoefs(d: seq<seq<real>>, n: nat, k: nat): (r: seq<real>)
    requires Dense(d, n) && k <= n
    ensures |r| == |PackedCols(d, n, k)|
  {
    ConcatLengths(RowCols(d, n), RowCoefs(d, n), k);
    Concat(RowCoefs(d, n), k)
  }

  /** The number of nonzero elements of each row of `d`. */
  function Counts(d: seq<seq<real>>, n: nat): (r: seq<nat>)
    requires Dense(d, n)
    ensures |r| == n
  {
    seq(n, r requires 0 <= r < n => |NonzeroCols(d[r], n)|)
  }

  /** `b` holds the rows of `d` added so far: every row at or past
      `nextRowIdx` is zero in `d`, `rows` holds the count of each row, and
      `cols`/`coefs` are the rows packed in order. */
  ghost predicate Built(b: Builder, d: seq<seq<real>>) {
    var n := Size(b.matrix);
    && Sane(b) && !b.finalized && Dense(d, n)
    && (forall r, c :: b.nextRowIdx <= r < n && 0 <= c < n ==> d[r][c] == 0.0)
    && b.matrix == Matrix(Counts(d, n), PackedCols(d, n, n), PackedCoefs(d, n, n))
  }

  /** Parts of equal lengths lay out to equal lengths. */
  lemma {:induction false} ConcatLengths<A, B>(a: seq<seq<A>>, b: seq<seq<B>>, k: nat)
    requires k <= |a| && k <= |b| && forall i :: 0 <= i < k ==> |a[i]| == |b[i]|
    ensures |Concat(a, k)| == |Concat(b, k)|
  {
    if k > 0 {
      ConcatLengths(a, b, k - 1);
    }
  }

  /** Laying out the first `k` parts looks at those parts only. */
  lemma {:induction false} ConcatFrame<T>(a: seq<seq<T>>, b: seq<seq<T>>, k: nat)
    requires k <= |a| && k <= |b| && forall i :: 0 <= i < k ==> a[i] == b[i]
    ensures Concat(a, k) == Concat(b, k)
  {
    if k > 0 {
      ConcatFrame(a, b, k - 1);
    }
  }

  /** Empty parts `k..big-1` add nothing. */
  lemma {:induction false} ConcatEmptyTail<T>(a: seq<seq<T>>, k: nat, big: nat)
    requires k <= big <= |a| && forall i :: k <= i < big ==> a[i] == []
    ensures Concat(a, big) == Concat(a, k)
    decreases big
  {
    if k < big {
      ConcatEmptyTail(a, k, big - 1);
      AppendEmpty(Concat(a, big - 1), a[big - 1], Concat(a, big));
    }
  }

  /** Laying out more parts only appends. */
  lemma {:induction false} ConcatPrefix<T>(a: seq<seq<T>>, k: nat, big: nat)
    requires k <= big <= |a|
    ensures |Concat(a, k)| <= |Concat(a, big)|
    ensures Concat(a, big)[..|Concat(a, k)|] == Concat(a, k)
    decreases big
  {
    if k < big {
      ConcatPrefix(a, k, big - 1);
      PrefixOfAppend(Concat(a, big - 1), a[big - 1], |Concat(a, k)|);
    }
  }

  /** Part `r` sits at `[|Concat(a, r)|, |Concat(a, r + 1)|)` of the
      whole layout. */
  lemma ConcatSlice<T>(a: seq<seq<T>>, r: nat)
    requires r < |a|
    ensures |Concat(a, r + 1)| <= |Concat(a, |a|)|
    ensures Concat(a, |a|)[|Concat(a, r)|..|Concat(a, r + 1)|] == a[r]
  {
    ConcatPrefix(a, r + 1, |a|);
    SliceOfPrefix(Concat(a, |a|), Concat(a, r + 1), Concat(a, r), a[r], |Concat(a, r)|, |Concat(a, r + 1)|);
  }

  /** Filling in the first empty part of an empty tail appends it to the
      layout. */
  lemma ConcatFilled<T>(a: seq<seq<T>>, b: seq<seq<T>>, row: nat)
    requires |a| == |b| && row < |a|
    requires forall i :: 0 <= i < row ==> b[i] == a[i]
    requires forall i :: row <= i < |a| ==> a[i] == []
    requires forall i :: row < i < |b| ==> b[i] == []
    ensures Concat(b, |b|) == Concat(a, |a|) + b[row]
  {
    ConcatEmptyTail(a, row, |a|);
    ConcatEmptyTail(b, row + 1, |b|);
    ConcatFrame(a, b, row);
  }

  /** Parts whose elements are below `n` lay out to elements below `n`. */
  lemma {:induction false} ConcatBounded(a: seq<seq<nat>>, k: nat, n: nat)
    requires k <= |a| && forall i, q :: 0 <= i < |a| && 0 <= q < |a[i]| ==> a[i][q] < n
    ensures forall p :: 0 <= p < |Concat<nat>(a, k)| ==> Concat<nat>(a, k)[p] < n
  {
    if k > 0 {
      ConcatBounded(a, k - 1, n);
    }
  }

  /** The layout is as long as the sum of the lengths of its parts. */
  lemma {:induction false} ConcatSum<T>(a: seq<seq<T>>, lens: seq<nat>, k: nat)
    requires k <= |a| == |lens| && forall i :: 0 <= i < |a| ==> lens[i] == |a[i]|
    ensures Sum(lens[..k]) == |Concat(a, k)|
  {
    if k > 0 {
      ConcatSum(a, lens, k - 1);
      SumSnoc(lens, k - 1);
    }
  }

  /** Appending nothing leaves a sequence as it is. */
  lemma AppendEmpty<T>(a: seq<T>, b: seq<T>, whole: seq<T>)
    requires b == [] && whole == a + b
    ensures whole == a
  {
  }

  /** A prefix of `a + b` no longer than `a` is a prefix of `a`. */
  lemma PrefixOfAppend<T>(a: seq<T>, b: seq<T>, len: nat)
    requires len <= |a|
    ensures (a + b)[..len] == a[..len]
  {
  }

  /** Where a prefix `head + row` of `whole`, `hlen` and `len` long, puts
      `row`. */
  lemma SliceOfPrefix<T>(whole: seq<T>, upto: seq<T>, head: seq<T>, row: seq<T>, hlen: nat, len: nat)
    requires len == |upto| <= |whole| && whole[..len] == upto
    requires upto == head + row && hlen == |head|
    ensures whole[hlen..len] == row
  {
    assert whole[hlen..len] == whole[..len][hlen..];
  }

  /** A zero row has no nonzero entries. */
  lemma {:induction false} ZeroRowEmpty(data: seq<real>, k: nat)
    requires k <= |data| && forall c :: 0 <= c < |data| ==> data[c] == 0.0
    ensures NonzeroCols(data, k) == [] && NonzeroCoefs(data, k) == []
  {
    if k > 0 {
      ZeroRowEmpty(data, k - 1);
    }
  }

  /** Zero rows from `k` on contribute nothing to the packing. */
  lemma ZeroRowsEmpty(d: seq<seq<real>>, n: nat, k: nat)
    requires Dense(d, n) && k <= n
    requires forall r, c :: k <= r < n && 0 <= c < n ==> d[r][c] == 0.0
    ensures forall r :: k <= r < n ==> RowCols(d, n)[r] == [] && RowCoefs(d, n)[r] == []
  {
    forall r | k <= r < n
      ensures RowCols(d, n)[r] == [] && RowCoefs(d, n)[r] == []
    {
      ZeroRowEmpty(d[r], n);
    }
  }

  /** The builder before any add_row stands for the zero matrix. */
  lemma NewBuilt(n: nat)
    requires n < SsizeLimit
    ensures Built(New(n), Zeros(n))
  {
    var z := Zeros(n);
    forall r | 0 <= r < n
      ensures Counts(z, n)[r] == 0
    {
      ZeroRowEmpty(z[r], n);
    }
    assert New(n).matrix.rows == Counts(z, n);
    ZeroRowsEmpty(z, n, 0);
    ConcatEmptyTail(RowCols(z, n), 0, n);
    ConcatEmptyTail(RowCoefs(z, n), 0, n);
  }

  /** Replacing a row changes its count only. */
  lemma CountsUpdated(d: seq<seq<real>>, n: nat, row: nat, data: seq<real>)
    requires Dense(d, n) && row < n && |data| == n
    ensures Dense(d[row := data], n)
    ensures Counts(d[row := data], n) == Counts(d, n)[row := |NonzeroCols(data, n)|]
  {
  }

  /** Filling in the first zero row of the tail appends its nonzeros to
      the packing; `e` is `d` with row `row` filled in. */
  lemma PackedAdded(d: seq<seq<real>>, e: seq<seq<real>>, n: nat, row: nat)
    requires Dense(d, n) && Dense(e, n) && row < n
    requires forall r, c :: row <= r < n && 0 <= c < n ==> d[r][c] == 0.0
    requires forall r, c :: row + 1 <= r < n && 0 <= c < n ==> e[r][c] == 0.0
    requires forall r :: 0 <= r < row ==> e[r] == d[r]
    ensures PackedCols(e, n, n) == PackedCols(d, n, n) + NonzeroCols(e[row], n)
    ensures PackedCoefs(e, n, n) == PackedCoefs(d, n, n) + NonzeroCoefs(e[row], n)
  {
    ZeroRowsEmpty(d, n, row);
    ZeroRowsEmpty(e, n, row + 1);
    ConcatFilled(RowCols(d, n), RowCols(e, n), row);
    ConcatFilled(RowCoefs(d, n), RowCoefs(e, n), row);
  }

  /** The rows of `d` with row `row` replaced by `data`. */
  lemma UpdatedRows(d: seq<seq<real>>, n: nat, row: nat, data: seq<real>, e: seq<seq<real>>)
    requires Dense(d, n) && row < n && |data| == n && e == d[row := data]
    requires forall r, c :: row <= r < n && 0 <= c < n ==> d[r][c] == 0.0
    ensures Dense(e, n) && e[row] == data
    ensures forall r :: 0 <= r < row ==> e[r] == d[r]
    ensures forall r, c :: row + 1 <= r < n && 0 <= c < n ==> e[r][c] == 0.0
  {
  }

  /** A successful add_row stores its array as the row of the dense
      matrix; nothing else changes. */
  lemma AddRowBuilds(b: Builder, d: seq<seq<real>>, a: NdArray<real>, rowIdx: int)
    requires Built(b, d) && IsSsize(rowIdx) && AddRow(b, a, rowIdx).Success?
    ensures 0 <= rowIdx < |d|
    ensures Built(AddRow(b, a, rowIdx).value, d[rowIdx := a.data])
  {
    var n := Size(b.matrix);
    CountsUpdated(d, n, rowIdx, a.data);
    UpdatedRows(d, n, rowIdx, a.data, d[rowIdx := a.data]);
    PackedAdded(d, d[rowIdx := a.data], n, rowIdx);
  }

  // ---------------------------------------------------------------------
  // finalize

  /** The sum of a sequence of counts. */
  function Sum(s: seq<nat>): nat {
    if |s| == 0 then 0 else s[0] + Sum(s[1..])
  }

  /** Summing one more element of a prefix. */
  lemma {:induction false} SumSnoc(s: seq<nat>, k: nat)
    requires k < |s|
    ensures Sum(s[..k + 1]) == Sum(s[..k]) + s[k]
  {
    if k > 0 {
      SumSnoc(s[1..], k - 1);
      assert s[..k + 1][1..] == s[1..][..k];
      assert s[..k][1..] == s[1..][..k - 1];
    }
  }

  /** The finalize loop from position `i` with running total `acc`: each
      count is replaced by the total so far. */
  function Accumulate(counts: seq<nat>, i: nat, acc: nat): (r: seq<nat>)
    requires i <= |counts|
    ensures |r| == |counts| - i
    decreases |counts| - i
  {
    if i == |counts| then []
    else [acc + counts[i]] + Accumulate(counts, i + 1, acc + counts[i])
  }

  /** Position `j` of the loop's output holds `acc` plus the counts of
      positions `i..j`. */
  lemma {:induction false} AccumulateSum(counts: seq<nat>, i: nat, acc: nat, j: nat)
    requires i <= j < |counts|
    ensures Accumulate(counts, i, acc)[j - i] == acc + Sum(counts[i..j + 1])
    decreases j - i
  {
    assert counts[i..j + 1][1..] == counts[i + 1..j + 1];
    if i < j {
      AccumulateSum(counts, i + 1, acc + counts[i], j);
    }
  }

  /** Started at the front with nothing accumulated, the loop yields the
      prefix sums. */
  lemma PrefixSums(counts: seq<nat>)
    ensures forall j :: 0 <= j < |counts| ==> Accumulate(counts, 0, 0)[j] == Sum(counts[..j + 1])
  {
    forall j | 0 <= j < |counts|
      ensures Accumulate(counts, 0, 0)[j] == Sum(counts[..j + 1])
    {
      AccumulateSum(counts, 0, 0, j);
      assert counts[0..j + 1] == counts[..j + 1];
    }
  }

  /** The offsets finalize computes: `rows[i]` becomes the sum of the
      counts of rows `0..i`. */
  function Totals(counts: seq<nat>): (r: seq<nat>)
    ensures |r| == |counts|
    ensures forall j :: 0 <= j < |counts| ==> r[j] == Sum(counts[..j + 1])
  {
    PrefixSums(counts);
    Accumulate(counts, 0, 0)
  }

  /** `finalize()` as written: the "Already finalized" error is set but
      the accumulation runs anyway, and the flag is never set, so it is
      reported as pending next to the new state. */
  function FinalizeAsWritten(b: Builder): (r: (Builder, Option<Refusal>))
    ensures r.0.finalized == b.finalized && r.0.nextRowIdx == b.nextRowIdx
    ensures r.0.matrix.cols == b.matrix.cols && r.0.matrix.coefs == b.matrix.coefs
    ensures r.1.Some? <==> b.finalized
  {
    (b.(matrix := b.matrix.(rows := Totals(b.matrix.rows))), if b.finalized then Some(AlreadyFinalized) else None)
  }

  /** `finalize()` as intended: refuses a second call and marks the
      matrix finalized. */
  function Finalize(b: Builder): (r: Result<Builder, Refusal>)
    ensures r.Failure? <==> b.finalized
    ensures r.Failure? ==> r.error == AlreadyFinalized
    ensures r.Success? ==>
              && r.value.finalized && r.value.nextRowIdx == b.nextRowIdx
              && r.value.matrix.cols == b.matrix.cols && r.value.matrix.coefs == b.matrix.coefs
              && |r.value.matrix.rows| == |b.matrix.rows|
              && forall j :: 0 <= j < |b.matrix.rows| ==> r.value.matrix.rows[j] == Sum(b.matrix.rows[..j + 1])
  {
    if b.finalized then Failure(AlreadyFinalized)
    else Success(b.(finalized := true, matrix := b.matrix.(rows := Totals(b.matrix.rows))))
  }

  /** Finalizing twice as written adds the counts up a second time: a
      two-row matrix with one entry per row ends with an offset past its
      stored entries. */
  lemma SecondFinalizeBreaksShape()
    ensures var b := Builder(2, false, Matrix([1, 1], [1, 0], [1.0, 1.0]));
            var once := FinalizeAsWritten(b).0;
            var twice := FinalizeAsWritten(once).0;
            && Valid(once.matrix) && once.matrix.rows == [1, 2]
            && twice.matrix.rows == [1, 3] && !Shaped(twice.matrix)
  {
    var b := Builder(2, false, Matrix([1, 1], [1, 0], [1.0, 1.0]));
    var once := FinalizeAsWritten(b).0;
    assert [1, 1][..1] == [1] && [1, 1][..2] == [1, 1];
    assert once.matrix.rows == [1, 2];
    assert [1, 2][..1] == [1] && [1, 2][..2] == [1, 2];
  }

  /** The CSR matrix standing for `d`: its rows packed in order, with the
      running totals of their counts as offsets. */
  function Packed(d: seq<seq<real>>, n: nat): Matrix
    requires Dense(d, n)
  {
    Matrix(Totals(Counts(d, n)), PackedCols(d, n, n), PackedCoefs(d, n, n))
  }

  /** The packed prefix of `k` rows is as long as the sum of their counts. */
  lemma PackedLength(d: seq<seq<real>>, n: nat, k: nat)
    requires Dense(d, n) && k <= n
    ensures Sum(Counts(d, n)[..k]) == |PackedCols(d, n, k)|
  {
    ConcatSum(RowCols(d, n), Counts(d, n), k);
  }

  /** The columns of row `r` within the whole packing. */
  lemma RowSliceCols(d: seq<seq<real>>, n: nat, r: nat)
    requires Dense(d, n) && r < n
    ensures |PackedCols(d, n, r + 1)| <= |PackedCols(d, n, n)|
    ensures PackedCols(d, n, n)[|PackedCols(d, n, r)|..|PackedCols(d, n, r + 1)|] == NonzeroCols(d[r], n)
  {
    ConcatSlice(RowCols(d, n), r);
  }

  /** The values of row `r` within the whole packing. */
  lemma RowSliceCoefs(d: seq<seq<real>>, n: nat, r: nat)
    requires Dense(d, n) && r < n
    ensures |PackedCols(d, n, r + 1)| <= |PackedCols(d, n, n)|
    ensures PackedCoefs(d, n, n)[|PackedCols(d, n, r)|..|PackedCols(d, n, r + 1)|] == NonzeroCoefs(d[r], n)
  {
    ConcatLengths(RowCols(d, n), RowCoefs(d, n), r);
    ConcatLengths(RowCols(d, n), RowCoefs(d, n), r + 1);
    ConcatLengths(RowCols(d, n), RowCoefs(d, n), n);
    ConcatSlice(RowCoefs(d, n), r);
  }

  /** Row `r` of the packing sits at `[|PackedCols(d, n, r)|, |PackedCols(d, n, r + 1)|)`. */
  lemma RowSlice(d: seq<seq<real>>, n: nat, r: nat)
    requires Dense(d, n) && r < n
    ensures |PackedCols(d, n, r + 1)| <= |PackedCols(d, n, n)|
    ensures PackedCols(d, n, n)[|PackedCols(d, n, r)|..|PackedCols(d, n, r + 1)|] == NonzeroCols(d[r], n)
    ensures PackedCoefs(d, n, n)[|PackedCols(d, n, r)|..|PackedCols(d, n, r + 1)|] == NonzeroCoefs(d[r], n)
  {
    RowSliceCols(d, n, r);
    RowSliceCoefs(d, n, r);
  }

  /** Every packed column is below the size. */
  lemma PackedRange(d: seq<seq<real>>, n: nat)
    requires Dense(d, n)
    ensures forall p :: 0 <= p < |PackedCols(d, n, n)| ==> PackedCols(d, n, n)[p] < n
  {
    forall i, q | 0 <= i < n && 0 <= q < |RowCols(d, n)[i]|
      ensures RowCols(d, n)[i][q] < n
    {
      NonzerosKept(d[i], n);
    }
    ConcatBounded(RowCols(d, n), n, n);
  }

  /** Where row `r` of the packed matrix starts and stops. */
  lemma PackedOffsets(d: seq<seq<real>>, n: nat, r: nat)
    requires Dense(d, n) && r < n
    ensures RowStart(Packed(d, n), r) == |PackedCols(d, n, r)|
    ensures RowStop(Packed(d, n), r) == |PackedCols(d, n, r + 1)|
  {
    PackedLength(d, n, r + 1);
    if r > 0 {
      PackedLength(d, n, r);
    }
  }

  /** The offsets ascend and end at the stored entries. */
  lemma PackedShaped(d: seq<seq<real>>, n: nat)
    requires Dense(d, n)
    ensures Shaped(Packed(d, n))
  {
    var m := Packed(d, n);
    forall i, j | 0 <= i <= j < n
      ensures m.rows[i] <= m.rows[j]
    {
      PackedOffsets(d, n, i);
      PackedOffsets(d, n, j);
      ConcatPrefix(RowCols(d, n), i + 1, j + 1);
    }
    if n > 0 {
      PackedOffsets(d, n, n - 1);
    }
  }

  /** A range holding the nonzeros of `data` is strictly increasing. */
  lemma SortedInRow(cols: seq<nat>, start: nat, stop: nat, data: seq<real>)
    requires start <= stop <= |cols| && cols[start..stop] == NonzeroCols(data, |data|)
    ensures forall i, j :: start <= i < j < stop ==> cols[i] < cols[j]
  {
    var row := NonzeroCols(data, |data|);
    NonzerosAscend(data, |data|);
    forall i, j | start <= i < j < stop
      ensures cols[i] < cols[j]
    {
      assert cols[i] == row[i - start] && cols[j] == row[j - start];
    }
  }

  /** Scanning a range holding the nonzeros of `data` reads back every
      element of `data`. */
  lemma FindInRow(cols: seq<nat>, coefs: seq<real>, start: nat, stop: nat, data: seq<real>, c: nat)
    requires |cols| == |coefs| && start <= stop <= |cols| && c < |data|
    requires cols[start..stop] == NonzeroCols(data, |data|)
    requires coefs[start..stop] == NonzeroCoefs(data, |data|)
    ensures Find(cols, coefs, start, stop, c) == data[c]
  {
    if data[c] != 0.0 {
      FindStored(cols, coefs, start, stop, data, c);
    } else {
      FindZero(cols, coefs, start, stop, data, c);
    }
  }

  /** A nonzero element of `data` is found at its place among the nonzeros. */
  lemma FindStored(cols: seq<nat>, coefs: seq<real>, start: nat, stop: nat, data: seq<real>, c: nat)
    requires |cols| == |coefs| && start <= stop <= |cols| && c < |data| && data[c] != 0.0
    requires cols[start..stop] == NonzeroCols(data, |data|)
    requires coefs[start..stop] == NonzeroCoefs(data, |data|)
    ensures Find(cols, coefs, start, stop, c) == data[c]
  {
    var row := NonzeroCols(data, |data|);
    NonzerosComplete(data, |data|, c);
    var i :| 0 <= i < |row| && row[i] == c;
    RowPosition(cols, coefs, start, stop, data, i);
    FindSome(cols, coefs, start, stop, c, start + i);
  }

  /** The `i`-th nonzero sits at `start + i`, holding its element, and no
      earlier position of the range holds its column. */
  lemma RowPosition(cols: seq<nat>, coefs: seq<real>, start: nat, stop: nat, data: seq<real>, i: nat)
    requires |cols| == |coefs| && start <= stop <= |cols|
    requires cols[start..stop] == NonzeroCols(data, |data|)
    requires coefs[start..stop] == NonzeroCoefs(data, |data|)
    requires i < |NonzeroCols(data, |data|)|
    ensures start + i < stop && cols[start + i] == NonzeroCols(data, |data|)[i] < |data|
    ensures coefs[start + i] == data[cols[start + i]]
    ensures forall q :: start <= q < start + i ==> cols[q] != cols[start + i]
  {
    var row := NonzeroCols(data, |data|);
    NonzerosKept(data, |data|);
    NonzerosAscend(data, |data|);
    assert cols[start + i] == row[i] && coefs[start + i] == NonzeroCoefs(data, |data|)[i];
    forall q | start <= q < start + i
      ensures cols[q] != cols[start + i]
    {
      assert cols[q] == row[q - start];
    }
  }

  /** A zero element of `data` has no stored column, and reads back as 0. */
  lemma FindZero(cols: seq<nat>, coefs: seq<real>, start: nat, stop: nat, data: seq<real>, c: nat)
    requires |cols| == |coefs| && start <= stop <= |cols| && c < |data| && data[c] == 0.0
    requires cols[start..stop] == NonzeroCols(data, |data|)
    requires coefs[start..stop] == NonzeroCoefs(data, |data|)
    ensures Find(cols, coefs, start, stop, c) == data[c]
  {
    var row := NonzeroCols(data, |data|);
    NonzerosKept(data, |data|);
    forall q | start <= q < stop
      ensures cols[q] != c
    {
      assert cols[q] == row[q - start];
    }
    FindNone(cols, coefs, start, stop, c);
  }

  /** Each row of the packed matrix keeps its columns in increasing order. */
  lemma PackedSorted(d: seq<seq<real>>, n: nat, r: nat)
    requires Dense(d, n) && r < n && Shaped(Packed(d, n))
    ensures RowSorted(Packed(d, n), r)
  {
    PackedOffsets(d, n, r);
    RowSlice(d, n, r);
    SortedInRow(Packed(d, n).cols, RowStart(Packed(d, n), r), RowStop(Packed(d, n), r), d[r]);
  }

  /** The packed matrix keeps the representation invariant. */
  lemma PackedValid(d: seq<seq<real>>, n: nat)
    requires Dense(d, n)
    ensures Valid(Packed(d, n))
  {
    PackedShaped(d, n);
    PackedRange(d, n);
    forall r | 0 <= r < n
      ensures RowSorted(Packed(d, n), r)
    {
      PackedSorted(d, n, r);
    }
  }

  /** Every entry of the packed matrix reads back from the dense matrix. */
  lemma PackedEntry(d: seq<seq<real>>, n: nat, r: nat, c: nat)
    requires Dense(d, n) && r < n && c < n && Shaped(Packed(d, n))
    ensures Entry(Packed(d, n), r, c) == d[r][c]
  {
    PackedOffsets(d, n, r);
    RowSlice(d, n, r);
    FindInRow(Packed(d, n).cols, Packed(d, n).coefs, RowStart(Packed(d, n), r), RowStop(Packed(d, n), r), d[r], c);
  }

  /** Finalizing a built matrix gives a valid CSR matrix whose every entry
      is the one its row was added with (0 for rows never added). */
  lemma FinalizeRoundTrip(b: Builder, d: seq<seq<real>>)
    requires Built(b, d)
    ensures Finalize(b).Success?
    ensures Valid(Finalize(b).value.matrix)
    ensures forall r, c :: 0 <= r < Size(b.matrix) && 0 <= c < Size(b.matrix) ==>
              Entry(Finalize(b).value.matrix, r, c) == d[r][c]
  {
    var n := Size(b.matrix);
    assert Finalize(b).value.matrix == Packed(d, n);
    PackedValid(d, n);
    forall r, c | 0 <= r < n && 0 <= c < n
      ensures Entry(Packed(d, n), r, c) == d[r][c]
    {
      PackedEntry(d, n, r, c);
    }
  }

  // ---------------------------------------------------------------------
  // Building a whole matrix

  /** Rows `0..k-1` of `d` handed to add_row in order, as the weight
      builders do; the first refusal stops the loop. */
  function AddRows(b: Builder, d: seq<seq<real>>, k: nat): (r: Result<Builder, Refusal>)
    requires Sane(b) && k <= |d| && k < SsizeLimit
    ensures r.Success? ==> Sane(r.value)
  {
    if k == 0 then Success(b)
    else
      match AddRows(b, d, k - 1)
      case Failure(e) => Failure(e)
      case Success(b1) => AddRow(b1, RowArray(d[k - 1]), k - 1)
  }

  /** The same loop over add_row as written. */
  function AddRowsAsWritten(b: Builder, d: seq<seq<real>>, k: nat): (r: Result<Builder, Refusal>)
    requires Sane(b) && k <= |d| && k < SsizeLimit
    ensures r.Success? ==> Sane(r.value)
  {
    if k == 0 then Success(b)
    else
      match AddRowsAsWritten(b, d, k - 1)
      case Failure(e) => Failure(e)
      case Success(b1) => AddRowAsWritten(b1, RowArray(d[k - 1]), k - 1)
  }

  /** As written, the loop stops at its first row: every row array carries
      the C-contiguous flag, which the broken test reads as a refusal. */
  lemma {:induction false} AddRowsAsWrittenRefused(d: seq<seq<real>>, n: nat, k: nat)
    requires Dense(d, n) && n < SsizeLimit && 0 < k <= n
    ensures AddRowsAsWritten(New(n), d, k) == Failure(NotCFormat)
  {
    if k > 1 {
      AddRowsAsWrittenRefused(d, n, k - 1);
    }
  }

  /** The first `k` rows of `d` over a zero matrix. */
  function Upto(d: seq<seq<real>>, n: nat, k: nat): (r: seq<seq<real>>)
    requires Dense(d, n) && k <= n
    ensures Dense(r, n)
  {
    seq(n, r requires 0 <= r < n => if r < k then d[r] else seq(n, _ => 0.0))
  }

  /** After `k` rows the builder stands for the first `k` rows of `d`. */
  lemma {:induction false} AddRowsBuilds(d: seq<seq<real>>, n: nat, k: nat)
    requires Dense(d, n) && n < SsizeLimit && k <= n
    ensures AddRows(New(n), d, k).Success?
    ensures AddRows(New(n), d, k).value.nextRowIdx == k
    ensures Built(AddRows(New(n), d, k).value, Upto(d, n, k))
  {
    if k == 0 {
      NewBuilt(n);
      UptoNone(d, n);
    } else {
      AddRowsBuilds(d, n, k - 1);
      var b := AddRows(New(n), d, k - 1).value;
      var a := RowArray(d[k - 1]);
      assert AddRows(New(n), d, k) == AddRow(b, a, k - 1);
      AddRowBuilds(b, Upto(d, n, k - 1), a, k - 1);
      UptoStep(d, n, k);
    }
  }

  /** With no row of `d` taken, the matrix is zero. */
  lemma UptoNone(d: seq<seq<real>>, n: nat)
    requires Dense(d, n)
    ensures Upto(d, n, 0) == Zeros(n)
  {
  }

  /** One more row of `d` is the previous matrix with that row stored. */
  lemma UptoStep(d: seq<seq<real>>, n: nat, k: nat)
    requires Dense(d, n) && 0 < k <= n
    ensures Upto(d, n, k - 1)[k - 1 := d[k - 1]] == Upto(d, n, k)
  {
  }

  /** The whole build: `__init__(n)`, add_row for every row in order and
      finalize give a valid CSR matrix from which `at` reads back every
      element that was passed in. */
  lemma BuildRoundTrip(d: seq<seq<real>>, n: nat)
    requires Dense(d, n) && n < SsizeLimit
    ensures AddRows(New(n), d, n).Success?
    ensures Finalize(AddRows(New(n), d, n).value).Success?
    ensures var m := Finalize(AddRows(New(n), d, n).value).value.matrix;
            && Valid(m) && Size(m) == n
            && forall r, c :: 0 <= r < n && 0 <= c < n ==> At(m, r, c) == Success(d[r][c])
  {
    AddRowsBuilds(d, n, n);
    assert Upto(d, n, n) == d;
    FinalizeRoundTrip(AddRows(New(n), d, n).value, d);
  }

  // ---------------------------------------------------------------------
  // run_reducing

  /** The outcome of the argument checks: refused, or admitted with the
      source indices (and, as written, an error left pending). */
  datatype Admission = Refused(refusal: Refusal) | Admitted(pending: Option<Refusal>, sources: seq<nat>)

  /** The argument checks of `run_reducing` as written: the "not
      finalized" error is set without returning, and the C-format test is
      the broken one. */
  function RunChecksAsWritten(b: Builder, s: NdArray<nat>): (r: Admission)
    ensures r.Admitted? ==> s.flags == 0 && r.sources == s.data
    ensures r.Admitted? ==> (r.pending.Some? <==> !b.finalized)
  {
    if !s.isArray then Refused(NotAnArray)
    else if s.ndim != 1 then Refused(NotOneDimensional)
    else if s.dtype != UIntP then Refused(NotUIntP)
    else
      var pending := if !b.finalized then Some(NotFinalized) else None;
      if |s.data| > Size(b.matrix) then Refused(TooManySources)
      else if BadFormatAsWritten(s.flags) then Refused(NotCFormat)
      else Admitted(pending, s.data)
  }

  /** The argument checks of `run_reducing` as intended. */
  function RunChecks(b: Builder, s: NdArray<nat>): (r: Admission)
    ensures r.Admitted? <==>
              && s.isArray && s.ndim == 1 && s.dtype == UIntP && b.finalized
              && |s.data| <= Size(b.matrix) && s.flags & CContiguous != 0
    ensures r.Admitted? ==> r.pending.None? && r.sources == s.data
    ensures r.Refused? && Raised(r.refusal) == TypeError ==> !s.isArray || (s.ndim == 1 && s.dtype != UIntP)
  {
    if !s.isArray then Refused(NotAnArray)
    else if s.ndim != 1 then Refused(NotOneDimensional)
    else if s.dtype != UIntP then Refused(NotUIntP)
    else if !b.finalized then Refused(NotFinalized)
    else if |s.data| > Size(b.matrix) then Refused(TooManySources)
    else if BadFormat(s.flags) then Refused(NotCFormat)
    else Admitted(None, s.data)
  }

  /** As written, a matrix that was never finalized is reduced anyway. */
  lemma UnfinalizedRunAdmitted()
    ensures RunChecksAsWritten(New(1), NdArray(true, 1, UIntP, 0, [0])) == Admitted(Some(NotFinalized), [0])
    ensures RunChecks(New(1), NdArray(true, 1, UIntP, CContiguous, [0])) == Refused(NotFinalized)
  {
  }

  /** The reducers `run_reducing` can run. */
  datatype Reducer = DrgReducer | DrgepReducer | PfaReducer

  /** The method name each reducer is requested by. */
  function Name(red: Reducer): string {
    match red
    case DrgReducer => "DRG"
    case DrgepReducer => "DRGEP"
    case PfaReducer => "PFA"
  }

  /** The dispatch as written, given that `method` holds the name:
      `strcmp` is nonzero when the strings differ, and that is what each
      branch tests.  How the name reaches `method` through
      `PyArg_ParseTuple` is not modelled. */
  function DispatchAsWritten(name: string): Reducer {
    if name != "DRG" then DrgReducer
    else if name != "DRGEP" then DrgepReducer
    else PfaReducer
  }

  /** The dispatch as intended: each name selects its own reducer, any
      other name PFA. */
  function Dispatch(name: string): (r: Reducer)
    ensures name != "DRG" && name != "DRGEP" ==> r == PfaReducer
  {
    if name == "DRG" then DrgReducer
    else if name == "DRGEP" then DrgepReducer
    else PfaReducer
  }

  /** Every reducer is selected by its own name. */
  lemma DispatchByName(red: Reducer)
    ensures Dispatch(Name(red)) == red
    ensures Name(Dispatch(Name(red))) == Name(red)
  {
  }

  /** As written, "DRG" runs DRGEP, "DRGEP" runs DRG, and PFA never runs. */
  lemma DispatchAsWrittenMisroutes(name: string)
    ensures DispatchAsWritten(Name(DrgReducer)) == DrgepReducer
    ensures DispatchAsWritten(Name(DrgepReducer)) == DrgReducer
    ensures DispatchAsWritten(name) != PfaReducer
  {
  }

  /** The retained nodes in increasing order: the index array
      `run_reducing` is meant to return, one slot per set bit. */
  function MarkedIndices(bits: seq<bool>): (r: seq<nat>)
    ensures |r| == Count(bits, true)
    ensures forall p :: 0 <= p < |r| ==> r[p] < |bits| && bits[r[p]]
    ensures forall p, q :: 0 <= p < q < |r| ==> r[p] < r[q]
    ensures forall i :: 0 <= i < |bits| && bits[i] ==> i in r
  {
    if |bits| == 0 then []
    else MarkedIndices(bits[..|bits| - 1]) + (if bits[|bits| - 1] then [|bits| - 1] else [])
  }

  /** The result array as written: it has one slot per set bit, but node
      `i` is written into slot `i`; a write at or past the end is reported
      as `None`, and a slot nobody writes keeps `junk`. */
  function FillAsWritten(bits: seq<bool>, junk: nat): (r: Option<seq<nat>>)
    ensures r.Some? ==> |r.value| == Count(bits, true)
    ensures r.None? ==> exists i :: 0 <= i < |bits| && bits[i] && Count(bits, true) <= i
  {
    var n := Count(bits, true);
    if exists i :: 0 <= i < |bits| && bits[i] && n <= i then None
    else Some(seq(n, j => if 0 <= j < |bits| && bits[j] then j else junk))
  }

  /** Retaining only node 1 of two writes past the one-slot result. */
  lemma ResultOverrun()
    ensures FillAsWritten([false, true], 0) == None
    ensures MarkedIndices([false, true]) == [1]
  {
    assert [false, true][..1] == [false];
    assert MarkedIndices([false]) == [];
    assert Count([false, true], true) == 1 by {
      assert Count([false], true) == 0 by {
        assert [false][..0] == [];
      }
    }
  }
}
