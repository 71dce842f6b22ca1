/** `ArrayCollection` (a fixed-capacity array) and `DArrayCollection` (an array
    that grows and shrinks in whole blocks), modelled as values: the live
    elements and the number of allocated slots.  Element construction,
    moves and the allocator are not modelled. */
module ArrayBased {
  import opened Wrappers
  import opened Seqs
  import Arith

  /** A fixed-capacity array: `items` are the `size` live elements. */
  datatype Array<T> = Array(items: seq<T>, capacity: nat)

  /** The array never holds more elements than it has room for. */
  predicate Valid<T>(a: Array<T>) {
    |a.items| <= a.capacity
  }

  /** `operator[]`: the element at `idx`, or out_of_range past the end. */
  function Get<T>(a: Array<T>, idx: nat): (r: Result<T, CppError>)
    ensures r.Failure? <==> idx >= |a.items|
    ensures r.Failure? ==> r.error == OutOfRange
    ensures r.Success? ==> idx < |a.items| && r.value == a.items[idx]
  {
    if idx >= |a.items| then Failure(OutOfRange) else Success(a.items[idx])
  }

  /** `replace`: stores `x` at `idx` and hands back the element it displaced. */
  function Replace<T>(a: Array<T>, idx: nat, x: T): (r: Result<(Array<T>, T), CppError>)
    ensures r.Failure? <==> idx >= |a.items|
    ensures r.Failure? ==> r.error == OutOfRange
    ensures r.Success? ==> (idx < |a.items|
      && r.value.1 == a.items[idx]
      && r.value.0.capacity == a.capacity
      && |r.value.0.items| == |a.items|
      && r.value.0.items[idx] == x
      && (forall j :: 0 <= j < |a.items| && j != idx ==> r.value.0.items[j] == a.items[j]))
  {
    if idx >= |a.items| then Failure(OutOfRange)
    else Success((a.(items := a.items[idx := x]), a.items[idx]))
  }

  /** `insert` of the fixed-capacity array: a full array refuses first, then a
      position past the end; otherwise `x` lands at `idx` and later elements
      move up by one. */
  function Insert<T>(a: Array<T>, idx: nat, x: T): (r: Result<Array<T>, CppError>)
    ensures r.Failure? <==> |a.items| == a.capacity || idx > |a.items|
    ensures r.Failure? && |a.items| == a.capacity ==> r.error == NoSpaceToInsert
    ensures r.Failure? && |a.items| != a.capacity ==> r.error == OutOfRange
    ensures r.Success? ==> (idx <= |a.items|
      && r.value.capacity == a.capacity
      && |r.value.items| == |a.items| + 1
      && r.value.items[idx] == x
      && (forall j :: 0 <= j < idx ==> r.value.items[j] == a.items[j])
      && (forall j :: idx < j <= |a.items| ==> r.value.items[j] == a.items[j - 1]))
  {
    if |a.items| == a.capacity then Failure(NoSpaceToInsert)
    else if idx > |a.items| then Failure(OutOfRange)
    else Success(a.(items := InsertAt(a.items, idx, x)))
  }

  /** `append` is an insertion at the end. */
  function Append<T>(a: Array<T>, x: T): (r: Result<Array<T>, CppError>)
    ensures r.Failure? <==> |a.items| == a.capacity
    ensures r.Success? ==> r.value.items == a.items + [x] && r.value.capacity == a.capacity
  {
    Insert(a, |a.items|, x)
  }

  /** `remove`: takes out the element at `idx`; later elements move down. */
  function Remove<T>(a: Array<T>, idx: nat): (r: Result<(Array<T>, T), CppError>)
    ensures r.Failure? <==> idx >= |a.items|
    ensures r.Failure? ==> r.error == OutOfRange
    ensures r.Success? ==> (idx < |a.items|
      && r.value.1 == a.items[idx]
      && r.value.0.capacity == a.capacity
      && |r.value.0.items| == |a.items| - 1
      && (forall j :: 0 <= j < idx ==> r.value.0.items[j] == a.items[j])
      && (forall j :: idx <= j < |a.items| - 1 ==> r.value.0.items[j] == a.items[j + 1]))
  {
    if idx >= |a.items| then Failure(OutOfRange)
    else Success((a.(items := RemoveAt(a.items, idx)), a.items[idx]))
  }

  /** `clear` drops every element and keeps the storage. */
  function Clear<T>(a: Array<T>): (r: Array<T>)
    ensures |r.items| == 0 && r.capacity == a.capacity
  {
    a.(items := [])
  }

  /** The fill constructor: `size` copies of `value` in exactly `size` slots. */
  function Fill<T>(size: nat, value: T): (r: Array<T>)
    ensures Valid(r) && |r.items| == size && r.capacity == size
    ensures forall j :: 0 <= j < size ==> r.items[j] == value
  {
    Array(seq(size, _ => value), size)
  }

  /** Every fixed-capacity operation keeps the array within its capacity. */
  lemma OperationsKeepValid<T>(a: Array<T>, idx: nat, x: T)
    requires Valid(a)
    ensures Replace(a, idx, x).Success? ==> Valid(Replace(a, idx, x).value.0)
    ensures Insert(a, idx, x).Success? ==> Valid(Insert(a, idx, x).value)
    ensures Remove(a, idx).Success? ==> Valid(Remove(a, idx).value.0)
    ensures Valid(Clear(a))
  {
  }

  /** Removing at the position just inserted at restores the array and yields
      the inserted element. */
  lemma RemoveUndoesInsert<T>(a: Array<T>, idx: nat, x: T)
    requires Insert(a, idx, x).Success?
    ensures Remove(Insert(a, idx, x).value, idx) == Success((a, x))
  {
    RemoveAfterInsert(a.items, idx, x);
  }

  /** Replacing back the displaced element restores the array. */
  lemma ReplaceTwiceRestores<T>(a: Array<T>, idx: nat, x: T)
    requires Replace(a, idx, x).Success?
    ensures var (b, displaced) := Replace(a, idx, x).value;
      Replace(b, idx, displaced) == Success((a, x))
  {
    var (b, displaced) := Replace(a, idx, x).value;
    assert b.items[idx := displaced] == a.items;
  }

  // ---------------------------------------------------------------------
  // DArrayCollection

  /** A growing array: the fixed-capacity part plus the block size every
      reallocation rounds up to. */
  datatype DArray<T> = DArray(arr: Array<T>, blockSize: nat)

  /** A usable growing array has a nonzero block size. */
  predicate DValid<T>(d: DArray<T>) {
    Valid(d.arr) && d.blockSize > 0
  }

  /** The constructors refuse a zero block size. */
  function NewDArray<T>(capacity: nat, blockSize: nat): (r: Result<DArray<T>, CppError>)
    ensures r.Failure? <==> blockSize == 0
    ensures r.Failure? ==> r.error == InvalidArgument
    ensures r.Success? ==> DValid(r.value) && r.value.arr.items == [] && r.value.arr.capacity == capacity
  {
    if blockSize == 0 then Failure(InvalidArgument)
    else Success(DArray(Array([], capacity), blockSize))
  }

  /** The fill constructor of the growing array. */
  function DFill<T>(size: nat, value: T, blockSize: nat): (r: Result<DArray<T>, CppError>)
    ensures r.Failure? <==> blockSize == 0
    ensures r.Success? ==> (DValid(r.value) && |r.value.arr.items| == size
      && (forall j :: 0 <= j < size ==> r.value.arr.items[j] == value))
    ensures r.Success? ==> r.value.arr.capacity == size && r.value.blockSize == blockSize
  {
    if blockSize == 0 then Failure(InvalidArgument)
    else Success(DArray(Fill(size, value), blockSize))
  }

  /** `setBlockSize` refuses zero. */
  function SetBlockSize<T>(d: DArray<T>, blockSize: nat): (r: Result<DArray<T>, CppError>)
    ensures r.Failure? <==> blockSize == 0
    ensures r.Success? ==> r.value.arr == d.arr && r.value.blockSize == blockSize
  {
    if blockSize == 0 then Failure(InvalidArgument) else Success(d.(blockSize := blockSize))
  }

  /** `calcNewSpaceSize`: `size` rounded up to a whole number of blocks. */
  function CalcNewSpaceSize(size: nat, blockSize: nat): (r: nat)
    requires blockSize > 0
    ensures r % blockSize == 0
    ensures size <= r < size + blockSize
  {
    var blocks := size / blockSize + (if size % blockSize == 0 then 0 else 1);
    Arith.MultipleMod(blocks, blockSize);
    assert blocks * blockSize == (size / blockSize) * blockSize + (if size % blockSize == 0 then 0 else blockSize);
    blocks * blockSize
  }

  /** No smaller multiple of the block size holds `size` elements. */
  lemma CalcNewSpaceSizeIsLeast(size: nat, blockSize: nat, m: nat)
    requires blockSize > 0 && m % blockSize == 0 && size <= m
    ensures CalcNewSpaceSize(size, blockSize) <= m
  {
    var r := CalcNewSpaceSize(size, blockSize);
    if m < r {
      Arith.DivModUnique(r, blockSize, r / blockSize, 0);
      Arith.DivModUnique(m, blockSize, m / blockSize, 0);
      assert r - m == (r / blockSize - m / blockSize) * blockSize;
      Arith.MulAtLeast(r / blockSize - m / blockSize, blockSize);
    }
  }

  /** `resize`: a no-op at the current capacity; refuses to drop below the
      size; otherwise reallocates to exactly `newSpaceSize`. */
  function Resize<T>(d: DArray<T>, newSpaceSize: nat): (r: Result<DArray<T>, CppError>)
    ensures r.Failure? <==> newSpaceSize != d.arr.capacity && newSpaceSize < |d.arr.items|
    ensures r.Failure? ==> r.error == OutOfRange
    ensures r.Success? ==> (r.value.arr.items == d.arr.items
      && r.value.blockSize == d.blockSize
      && r.value.arr.capacity == newSpaceSize)
  {
    if newSpaceSize == d.arr.capacity then Success(d)
    else if newSpaceSize < |d.arr.items| then Failure(OutOfRange)
    else Success(d.(arr := d.arr.(capacity := newSpaceSize)))
  }

  /** `truncate`: shrinks the storage to the size. */
  function Truncate<T>(d: DArray<T>): (r: DArray<T>)
    ensures r.arr.items == d.arr.items && r.arr.capacity == |d.arr.items| && r.blockSize == d.blockSize
  {
    d.(arr := d.arr.(capacity := |d.arr.items|))
  }

  /** `insert` of the growing array: in place while there is room, otherwise
      into fresh storage of `calcNewSpaceSize(size + 1)` slots. */
  function DInsert<T>(d: DArray<T>, idx: nat, x: T): (r: Result<DArray<T>, CppError>)
    requires DValid(d)
    ensures r.Failure? <==> idx > |d.arr.items|
    ensures r.Failure? ==> r.error == OutOfRange
    ensures r.Success? ==> (DValid(r.value)
      && r.value.blockSize == d.blockSize
      && r.value.arr.items == InsertAt(d.arr.items, idx, x)
      && (|d.arr.items| < d.arr.capacity ==> r.value.arr.capacity == d.arr.capacity)
      && (|d.arr.items| == d.arr.capacity ==>
            r.value.arr.capacity == CalcNewSpaceSize(|d.arr.items| + 1, d.blockSize)))
  {
    if |d.arr.items| < d.arr.capacity then
      var r :- Insert(d.arr, idx, x);
      Success(d.(arr := r))
    else if idx > |d.arr.items| then Failure(OutOfRange)
    else
      Success(d.(arr := Array(InsertAt(d.arr.items, idx, x), CalcNewSpaceSize(|d.arr.items| + 1, d.blockSize))))
  }

  /** `remove` of the growing array: in place while the spare room is less
      than a block, otherwise into storage of `calcNewSpaceSize(size - 1)`. */
  function DRemove<T>(d: DArray<T>, idx: nat): (r: Result<(DArray<T>, T), CppError>)
    requires DValid(d)
    ensures r.Failure? <==> idx >= |d.arr.items|
    ensures r.Failure? ==> r.error == OutOfRange
    ensures r.Success? ==> (DValid(r.value.0)
      && r.value.1 == d.arr.items[idx]
      && r.value.0.arr.items == RemoveAt(d.arr.items, idx)
      && (d.arr.capacity - |d.arr.items| + 1 < d.blockSize ==> r.value.0.arr.capacity == d.arr.capacity)
      && (d.arr.capacity - |d.arr.items| + 1 >= d.blockSize ==>
            r.value.0.arr.capacity == CalcNewSpaceSize(|d.arr.items| - 1, d.blockSize)))
  {
    if d.arr.capacity - |d.arr.items| + 1 < d.blockSize then
      var (a, x) :- Remove(d.arr, idx);
      Success((d.(arr := a), x))
    else if idx >= |d.arr.items| then Failure(OutOfRange)
    else
      var items := RemoveAt(d.arr.items, idx);
      Success((d.(arr := Array(items, CalcNewSpaceSize(|items|, d.blockSize))), d.arr.items[idx]))
  }

  /** `clear` of the growing array empties it and then truncates the storage. */
  function DClear<T>(d: DArray<T>): (r: DArray<T>)
    ensures r.arr.items == [] && r.arr.capacity == 0 && r.blockSize == d.blockSize
  {
    var c := d.(arr := Clear(d.arr));
    match Resize(c, |c.arr.items|)
    case Success(e) => e
    case Failure(_) => c
  }

  /** After a reallocating `remove`, the spare room is below one block. */
  lemma DRemoveShrinks<T>(d: DArray<T>, idx: nat)
    requires DValid(d) && idx < |d.arr.items|
    requires d.arr.capacity - |d.arr.items| + 1 >= d.blockSize
    ensures var e := DRemove(d, idx).value.0;
      e.arr.capacity - |e.arr.items| < d.blockSize
  {
  }

  /** Growing-array insertion agrees with plain sequence insertion regardless
      of capacity, and undoing it with `remove` restores the elements. */
  lemma DRemoveUndoesDInsert<T>(d: DArray<T>, idx: nat, x: T)
    requires DValid(d) && idx <= |d.arr.items|
    ensures DInsert(d, idx, x).Success?
    ensures DRemove(DInsert(d, idx, x).value, idx).Success?
    ensures DRemove(DInsert(d, idx, x).value, idx).value.0.arr.items == d.arr.items
    ensures DRemove(DInsert(d, idx, x).value, idx).value.1 == x
  {
    RemoveAfterInsert(d.arr.items, idx, x);
  }
}
