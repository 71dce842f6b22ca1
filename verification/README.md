# hkreduce core, modelled in Dafny

hkreduce reduces detailed chemical-kinetics mechanisms. It builds a weighted
directed graph of the species for each sampled reactor state and keeps the
species a graph search reaches from the target species. The graph weights
come from DRG, DRGEP or PFA. The threshold is then raised step by step for
as long as the reduced model's ignition delays stay within the allowed
error.

This project models the core of that pipeline as pure Dafny functions and
methods over immutable values, and proves properties of each part:

- **Collections** (`array_based.dfy`, `section_layout.dfy`, `sectioned.dfy`,
  `bool_section.dfy`, `bitmap.dfy`, `seqs.dfy`, `arith.dfy`). These cover
  the fixed and growing arrays, the sectioned collection (a list of
  fixed-size sections kept packed), and the bitmap of 64-bit words. Each
  one is related to the plain sequence it stands for.
- **Search helpers** (`algorithms.dfy`): `bsearchRightToInsert`,
  `bsearchRight` and `countBits`.
- **CSR matrix** (`csr.dfy`, `csr_iterator.dfy`). The matrix is three flat
  sequences, `rows`, `cols` and `coefs`, read through an independent dense
  view (`Csr.Entry`, a linear scan). The module also covers the neighbours
  iterator, the handle that owns it, and the defaults of the abstract
  matrix.
- **Python builder of the matrix** (`csr_builder.dfy`). This covers
  `__init__`, `add_row`, `finalize` and the argument checks and dispatch of
  `run_reducing`, with numpy arrays as values.
- **Reducers** (`drg.dfy`, `drgep.dfy`):
  - DRG is weak-edge removal plus a depth-first search. It is proved equal
    to graph reachability.
  - DRGEP is a max-product path search over an ordered queue. It is proved
    equal to the best chain product from the source, in both directions.
- **Weights** (`weights.dfy`): the DRG, DRGEP and PFA coefficient formulas
  of the matrix builders, and the rows they hand to the builder.
- **Controller** (`controller.dfy`): `_calc_error`, the automatic choice
  of the initial threshold, and the ascent of the threshold.
- **Utilities**: the numpy array dumper (`dumper.dfy`), worker messages
  (`messages.dfy`), the workers manager (`workers.dfy`), the configuration
  validators (`config.dfy`), and the caret version constraints of the
  package set-up (`versions.dfy`).

Several things are parameters of the model rather than code in it:

- The simulations. The controller receives the error of each threshold as
  a function `errorAt`.
- The file system. The dumper records which removals `clean` asks for.
- The clock and the pipes. A wait is modelled as a sequence of
  observations.
- The processes. The workers manager records the calls each worker
  receives.

Unsigned 64-bit words are `bv64`. The cast of a negative `Py_ssize_t` to
`size_t` is written out as a wrap-around (`CsrBuilder.ToSize`). IEEE
doubles are modelled as `real`.

Where the code has an evident bug, the model has two versions:

- a member suffixed `AsWritten` that does what the code does;
- the corrected member, which the rest of the model builds on.

Each such pair is listed under "Findings".

## Model

| member | source | states |
|---|---|---|
| ArrayBased.Get | cpp/include/hkreduce/collections/array_based.h:135-147 | the element at `idx` of the live elements; out_of_range exactly when `idx` is at or past the size |
| ArrayBased.Replace | cpp/include/hkreduce/collections/array_based.h:149-156 | the displaced element is returned and only position `idx` changes; out_of_range exactly past the size |
| ArrayBased.Insert | cpp/include/hkreduce/collections/array_based.h:159-230 | a full array refuses with "no space" before the index is checked; otherwise the contents are the old ones with `x` spliced in at `idx`, and the capacity is unchanged |
| ArrayBased.Append | include/hkreduce/collections/abc.h:95-97 | appending adds `x` at the end and fails only when the array is full |
| ArrayBased.Remove | cpp/include/hkreduce/collections/array_based.h:232-251 | the removed element is returned and the later ones move down one place; out_of_range exactly past the size |
| ArrayBased.Clear | cpp/include/hkreduce/collections/array_based.h:253-260 | no element is left and the storage is kept |
| ArrayBased.Fill | cpp/include/hkreduce/collections/array_based.h:270-288 | `size` copies of the value, in exactly `size` slots |
| ArrayBased.OperationsKeepValid | cpp/include/hkreduce/collections/array_based.h:135-260 | no operation of the fixed array takes it past its capacity |
| ArrayBased.RemoveUndoesInsert | cpp/include/hkreduce/collections/array_based.h:159-251 | removing at the position just inserted at restores the array and returns the inserted element |
| ArrayBased.ReplaceTwiceRestores | cpp/include/hkreduce/collections/array_based.h:149-156 | replacing back the displaced element restores the array |
| ArrayBased.NewDArray | cpp/include/hkreduce/collections/array_based.h:632-679 | the growing-array constructors refuse a zero block size with invalid_argument, and otherwise give an empty array of the requested capacity |
| ArrayBased.DFill | cpp/include/hkreduce/collections/array_based.h:766-781 | the fill constructor of the growing array refuses a zero block size; otherwise it holds `size` copies in `size` slots and keeps the block size |
| ArrayBased.SetBlockSize | cpp/include/hkreduce/collections/array_based.h:446-451 | a zero block size is refused, and any other one is adopted without touching the elements |
| ArrayBased.CalcNewSpaceSize | cpp/include/hkreduce/collections/array_based.h:491-495 | the result is a multiple of the block size that holds `size`, and is less than one block more |
| ArrayBased.CalcNewSpaceSizeIsLeast | cpp/include/hkreduce/collections/array_based.h:491-495 | no smaller multiple of the block size holds `size` |
| ArrayBased.Resize | cpp/include/hkreduce/collections/array_based.h:453-488 | resizing to the current capacity does nothing; a capacity below the size is refused with out_of_range; otherwise the elements are kept under the new capacity |
| ArrayBased.Truncate | include/hkreduce/collections/abc.h:59-61 | the capacity shrinks to the size and the elements are kept |
| ArrayBased.DInsert | cpp/include/hkreduce/collections/array_based.h:497-560 | insertion into the growing array never fails for lack of room: a full array grows to the least block multiple that holds one more element; out_of_range exactly past the end |
| ArrayBased.DRemove | cpp/include/hkreduce/collections/array_based.h:562-616 | the element at `idx` is returned and removed; once a block or more of room would be left, the storage shrinks to the least block multiple |
| ArrayBased.DClear | cpp/include/hkreduce/collections/array_based.h:618-621 | clearing leaves no element and no storage |
| ArrayBased.DRemoveShrinks | cpp/include/hkreduce/collections/array_based.h:562-616 | after a reallocating remove, the spare room is below one block |
| ArrayBased.DRemoveUndoesDInsert | cpp/include/hkreduce/collections/array_based.h:497-616 | in the growing array, removing what was just inserted gives back the elements and the inserted value, whatever reallocation happened |
| Sectioned.New | cpp/include/hkreduce/collections/sectioned.h:39-92 | a zero section size or a missing allocator is refused with invalid_argument; otherwise the collection is empty, packed, and has room for the requested capacity |
| Sectioned.AllocatedCoversSize | cpp/include/hkreduce/collections/sectioned.h:114-116 | the slots of all sections together cover the elements of a packed collection |
| Sectioned.Get | cpp/include/hkreduce/collections/sectioned.h:122-137 | reading through the section mapping gives the flattened element at `idx`; out_of_range exactly past the size |
| Sectioned.Replace | cpp/include/hkreduce/collections/sectioned.h:329-343 | the flattened contents change at `idx` alone, the packing is kept, and the old element is returned |
| Sectioned.ReplaceAsWritten | cpp/include/hkreduce/collections/sectioned.h:329-343 | as written, the guard lets `idx == size` through to the section lookup |
| Sectioned.ReplaceGuardIsMasked | cpp/include/hkreduce/collections/sectioned.h:140-149 | the weak `idx > size` guard changes no outcome, because the section's own bounds check refuses `idx == size` |
| Sectioned.ResizeAsWritten | cpp/include/hkreduce/collections/sectioned.h:151-171 | as written, `resize` refuses a capacity below the size, and otherwise keeps the size and the section size |
| Sectioned.Resize | cpp/include/hkreduce/collections/sectioned.h:151-171 | as intended, `resize` leaves exactly the sections the capacity needs, keeping the elements and the packing |
| Sectioned.ResizeAsWrittenStopsHalfway | cpp/include/hkreduce/collections/sectioned.h:160-169 | the loop bound, recomputed from the growing section count, adds only half of the missing sections |
| Sectioned.ResizeAsWrittenAddsOneSection | cpp/include/hkreduce/collections/sectioned.h:345-351 | when exactly one section is missing (the only use inside `insert`), the written loop agrees with the intended resize |
| Sectioned.Cascade | cpp/include/hkreduce/collections/sectioned.h:364-367 | shifting the last element of each full section from `lo` up to `i` into the next keeps the flattened contents, leaves section `lo` one short and section `i` one longer, and touches no other section |
| Sectioned.Insert | cpp/include/hkreduce/collections/sectioned.h:345-384 | the flattened contents gain `x` at `idx` and stay packed; one section is added exactly when every slot was used; out_of_range exactly past the end |
| Sectioned.PlaceInSections | cpp/include/hkreduce/collections/sectioned.h:353-371 | placing into a layout that has room splices `x` into the flattened contents at `idx` |
| Sectioned.Remove | cpp/include/hkreduce/collections/sectioned.h:202-227 | as intended, the element at `idx` is returned and removed from the flattened contents; the later sections refill the gap and the free sections are dropped |
| Sectioned.RemoveFromSection | cpp/include/hkreduce/collections/sectioned.h:209-225 | taking one element out of a section, refilling from the later sections and dropping the free ones keeps the packing, and removes exactly that position |
| Sectioned.RemoveAsWritten | cpp/include/hkreduce/collections/sectioned.h:202-227 | as written, the section is asked for the element at offset `sectionIdx`, not `idxInSection`; the collection still shrinks by one |
| Sectioned.RemoveSectionNumber | cpp/include/hkreduce/collections/sectioned.h:208-210 | the as-written removal takes offset `q` of section `q`, and fails exactly when that section has no such offset |
| Sectioned.RemoveAsWrittenTakesWrongElement | cpp/include/hkreduce/collections/sectioned.h:210 | in `[10, 20]` with sections of two, removing position 1 as written returns 10, where the intended removal returns 20 |
| Sectioned.Fill | cpp/include/hkreduce/collections/sectioned.h:267-278 | the fill constructor holds `size` copies of the value, packed section by section |
| BoolSections.SetBit | cpp/include/hkreduce/collections/bitmap.h:37-45 | bit `i` becomes the value, every other bit is unchanged, and the former bit is returned |
| BoolSections.InsertBit | cpp/include/hkreduce/collections/bitmap.h:47-54 | the bits of the word are the old ones with the value spliced in at `i` and the top bit pushed out and returned |
| BoolSections.RemoveBit | cpp/include/hkreduce/collections/bitmap.h:56-63 | bit `i` is returned and cut out, the later bits move down, and the top bit becomes the carried value |
| BoolSections.CountBits | cpp/include/hkreduce/collections/bitmap.h:65-73 | the count is the number of set bits among the 64 of the word |
| Bitmaps.New | cpp/include/hkreduce/collections/bitmap.h:106-123 | ⌈size / 64⌉ words whose first `size` bools all equal the value |
| Bitmaps.FromSections | cpp/include/hkreduce/collections/bitmap.h:92-104 | adopting words that hold fewer bits than the size is refused with invalid_argument; otherwise the bitmap keeps the words and represents their first `size` bits |
| Bitmaps.Get | cpp/include/hkreduce/collections/bitmap.h:258-265 | the represented bool at `idx`; out_of_range exactly past the size |
| Bitmaps.Replace | cpp/include/hkreduce/collections/bitmap.h:276-283 | the represented bools change at `idx` alone, and the former bool is returned |
| Bitmaps.Insert | cpp/include/hkreduce/collections/bitmap.h:285-305 | the represented bools gain `v` at `idx`; a word is appended exactly when every bit was in use; out_of_range exactly past the end |
| Bitmaps.Remove | cpp/include/hkreduce/collections/bitmap.h:307-338 | as intended, the bool at `idx` is returned and removed from the represented bools; the last word is dropped when the new size is a multiple of 64 |
| Bitmaps.RemoveAsWritten | cpp/include/hkreduce/collections/bitmap.h:307-328 | as written, the bits pulled out of the later words are discarded, and the function returns before the size is lowered |
| Bitmaps.RemoveAsWrittenLosesCarry | cpp/include/hkreduce/collections/bitmap.h:321-327 | with 65 set bits, removing bool 0 as written clears bool 63, which the intended removal keeps set |
| Bitmaps.Clear | cpp/include/hkreduce/collections/bitmap.h:340-343 | no bool is left and the words are kept |
| Bitmaps.Resize | cpp/include/hkreduce/collections/bitmap.h:232-241 | a size below the current one, or fewer words than are held, is refused with invalid_argument; otherwise nothing the bitmap represents changes |
| Algorithms.Bisect | cpp/include/hkreduce/collections/algorithms.h:32-45 | on a range split by the predicate, the bisection returns the split point |
| Algorithms.BsearchRightToInsert | cpp/include/hkreduce/collections/algorithms.h:13-47 | out_of_range when `start` or `stop` lies past the end, invalid_argument when `start > stop`, and otherwise a point inside the range |
| Algorithms.UpperBound | cpp/include/hkreduce/collections/algorithms.h:48-61 | with the default `<=` on a sorted range, the result is the upper-bound insertion point: every element before it is at most `e`, and every one from it is above |
| Algorithms.BsearchRightAsWritten | cpp/include/hkreduce/collections/algorithms.h:111-133 | as written, the predicate `0 <= compare(middle, element)` is handed to the bisection |
| Algorithms.BsearchRightMissesPresent | cpp/include/hkreduce/collections/algorithms.h:119-121 | 2 occurs in [1, 2, 3], yet the search as written reports "not found" |
| Algorithms.BsearchRightLeavesRange | cpp/include/hkreduce/collections/algorithms.h:126-130 | as written, searching the empty range [1, 1) of [2, 2] reports index 0, which lies outside the range |
| Algorithms.BsearchRight | cpp/include/hkreduce/collections/algorithms.h:111-133 | as intended, a found index lies in the searched range and holds an element comparing equal |
| Algorithms.BsearchRightFinds | cpp/include/hkreduce/collections/algorithms.h:136-153 | on a sorted range with the default comparator, the intended search finds `e` exactly when it occurs in `[start, stop)`, at its last occurrence |
| Algorithms.CountBits | cpp/include/hkreduce/collections/algorithms.h:201-213 | the count is the number of elements equal to the value |
| Algorithms.CountBitmapBits | cpp/include/hkreduce/collections/algorithms.h:215-238 | the word-wise count for bitmaps equals the element-wise count of the represented bools, for both values |
| Csr.At | cpp/include/hkreduce/adjacency_matrix/csr.h:136-153 | out_of_range exactly when `from` is past the size; otherwise the bisection over the row reads the dense view's coefficient of `from -> to` (0 when not stored) |
| Csr.GetCoef | cpp/include/hkreduce/adjacency_matrix/abc.h:39-44 | out_of_range exactly when either index is past the size; otherwise the dense view's coefficient |
| Csr.SetCoef | cpp/include/hkreduce/adjacency_matrix/csr.h:155-181 | out_of_range exactly when either index is past the size; otherwise the matrix stays valid, the dense view changes at `from -> to` alone, and the old coefficient is returned |
| Csr.InsertCase | cpp/include/hkreduce/adjacency_matrix/csr.h:167-180 | inserting a column the row lacks keeps the rows sorted and the offsets consistent, and adds one stored entry |
| Csr.SetCoefReadBack | cpp/include/hkreduce/adjacency_matrix/csr.h:155-181 | writing back the coefficient just read leaves the dense view unchanged |
| Csr.GetAfterSet | cpp/include/hkreduce/adjacency_matrix/csr.h:136-181 | reading an edge right after writing it gives the written value |
| CsrIterators.NewIterAsWritten | cpp/include/hkreduce/adjacency_matrix/csr.h:183-235 | the cursor rests on the first stored column at least `to`, whatever its coefficient, and is stopped at the row end; out_of_range past the size |
| CsrIterators.NewIterYieldsZeroEntry | cpp/include/hkreduce/adjacency_matrix/csr.h:226-234 | a row whose only entry was zeroed is still offered, as a neighbour the dense view does not have |
| CsrIterators.NewIter | cpp/include/hkreduce/adjacency_matrix/csr.h:220-235 | as intended, the cursor rests on the first nonzero entry at or after `to`, or is stopped at the row end |
| CsrIterators.Next | cpp/include/hkreduce/adjacency_matrix/csr.h:270-297 | a step moves to the next nonzero entry of the row, or stops at the row end; a stopped iterator left on a nonzero first entry is only restarted |
| CsrIterators.GetTo | cpp/include/hkreduce/adjacency_matrix/csr.h:250-253 | the column under the cursor; out_of_range past the stored entries |
| CsrIterators.GetIterCoef | cpp/include/hkreduce/adjacency_matrix/csr.h:254-257 | the coefficient under the cursor; out_of_range past the stored entries |
| CsrIterators.IterCoefAgrees | cpp/include/hkreduce/adjacency_matrix/abc.h:79-81 | on an entry of its row, the CSR iterator's own read agrees with the default read through the matrix |
| CsrIterators.IterSetCoef | cpp/include/hkreduce/adjacency_matrix/csr.h:258-268 | the coefficient under the cursor is overwritten in place and the old one returned; writing 0 stops the iterator |
| CsrIterators.IterSetCoefAgrees | cpp/include/hkreduce/adjacency_matrix/abc.h:82-89 | on an entry of its row, the in-place write changes the dense view exactly as the default write through the matrix does |
| CsrIterators.DefaultReplaceIter | cpp/include/hkreduce/adjacency_matrix/abc.h:49-51 | the default `replaceNeighboursIterator` makes the handle hold a fresh iterator, or fails as `getNeighboursIterator` does |
| CsrIterators.ReplaceIter | cpp/include/hkreduce/adjacency_matrix/csr.h:198-208 | the override fails exactly when an index is out of range, and otherwise leaves the handle on the first column at least `to` |
| CsrIterators.ReplaceAgrees | cpp/include/hkreduce/adjacency_matrix/csr.h:198-208 | the override behaves as the default on every handle, and what the handle held before does not matter |
| CsrIterators.HandleTo | cpp/include/hkreduce/adjacency_matrix/abc.h:190-204 | the column under the handle's cursor, always a node of the matrix; out_of_range past the stored entries |
| CsrIterators.HandleCoef | cpp/include/hkreduce/adjacency_matrix/abc.h:190-204 | on an entry of its row, the handle reads the dense view at its row and column |
| CsrIterators.HandleSetCoef | cpp/include/hkreduce/adjacency_matrix/abc.h:190-204 | a write through the handle changes the dense view only at the handle's row and column, and returns the old coefficient |
| CsrIterators.HandleWriteRead | cpp/include/hkreduce/adjacency_matrix/abc.h:190-204 | reading back through the handle after a write gives the written coefficient, at the same column |
| CsrIterators.PostIncrement | cpp/include/hkreduce/adjacency_matrix/abc.h:171-175 | postfix `++` steps the handle and returns a copy of what it held before |
| CsrIterators.PostfixAsPrefix | cpp/include/hkreduce/adjacency_matrix/abc.h:171-179 | postfix and prefix `++` leave the handle in the same state, and the postfix result reads what the handle read before the step |
| CsrBuilder.ToSize | cpp/src/hkreduce/python_interface/types.cpp:54 | the cast of a `Py_ssize_t` to `size_t` keeps nonnegative values and wraps negative ones into the upper half |
| CsrBuilder.New | cpp/src/hkreduce/python_interface/types.cpp:44-100 | `__init__(size)` gives `size` empty rows, with nothing added and nothing finalized |
| CsrBuilder.NonzerosKept | cpp/src/hkreduce/python_interface/types.cpp:151-160 | the row loop keeps exactly the nonzero elements, each with its own column, in increasing column order |
| CsrBuilder.AddRowAsWritten | cpp/src/hkreduce/python_interface/types.cpp:103-165 | as written, an array that passes the earlier checks but has any flag set is refused as not in C format |
| CsrBuilder.ContiguousRowRefused | cpp/src/hkreduce/python_interface/types.cpp:126-129 | a row handed over the way the weight builders do is refused by `add_row` as written, and accepted once the test is corrected |
| CsrBuilder.AddRow | cpp/src/hkreduce/python_interface/types.cpp:103-165 | the checks refuse in the order written, each with its exception type; an accepted row stores the nonzeros of the array as that row |
| CsrBuilder.AddRowBuilds | cpp/src/hkreduce/python_interface/types.cpp:131-165 | a successful `add_row` stores its array as the row of the dense matrix and changes nothing else |
| CsrBuilder.PrefixSums | cpp/src/hkreduce/python_interface/types.cpp:172-177 | the accumulation loop turns per-row counts into running totals |
| CsrBuilder.FinalizeAsWritten | cpp/src/hkreduce/python_interface/types.cpp:167-188 | as written, "Already finalized" is reported but the accumulation runs anyway, and the flag is never set |
| CsrBuilder.SecondFinalizeBreaksShape | cpp/src/hkreduce/python_interface/types.cpp:168-176 | finalizing twice as written accumulates twice, leaving an offset past the stored entries |
| CsrBuilder.Finalize | cpp/src/hkreduce/python_interface/types.cpp:167-188 | as intended, a second finalize is refused and the first one marks the matrix finalized |
| CsrBuilder.FinalizeRoundTrip | cpp/src/hkreduce/python_interface/types.cpp:167-188 | finalizing a built matrix gives a valid CSR matrix whose every entry is the one its row was added with (0 for rows never added) |
| CsrBuilder.AddRowsAsWrittenRefused | cpp/src/hkreduce/python_interface/types.cpp:126-129 | as written, adding the rows in order stops at the first row with a ValueError |
| CsrBuilder.AddRowsBuilds | cpp/src/hkreduce/python_interface/types.cpp:103-165 | after the first `k` rows of a dense matrix are added in order, the builder holds exactly those rows over a zero matrix |
| CsrBuilder.BuildRoundTrip | cpp/src/hkreduce/python_interface/types.cpp:44-188 | `__init__(n)`, `add_row` of every row in order, then `finalize` give a valid CSR matrix from which `at` reads back every element |
| CsrBuilder.RunChecksAsWritten | cpp/src/hkreduce/python_interface/types.cpp:190-223 | as written, only a sources array with no flag set is admitted, and an unfinalized matrix is admitted with the "not finalized" error left pending |
| CsrBuilder.UnfinalizedRunAdmitted | cpp/src/hkreduce/python_interface/types.cpp:213-215 | an unfinalized matrix is let through as written and refused as intended |
| CsrBuilder.RunChecks | cpp/src/hkreduce/python_interface/types.cpp:190-223 | as intended, the sources are admitted exactly when they are a 1-D `uintp` array in C order, no longer than the size, on a finalized matrix |
| CsrBuilder.DispatchAsWrittenMisroutes | cpp/src/hkreduce/python_interface/types.cpp:234-259 | once `method` holds the name, the inverted tests send "DRG" to DRGEP and "DRGEP" to DRG, and never reach PFA |
| CsrBuilder.DispatchByName | cpp/src/hkreduce/python_interface/types.cpp:234-259 | as intended, each reducer's own name selects it |
| CsrBuilder.MarkedIndices | cpp/src/hkreduce/python_interface/types.cpp:261-279 | the result lists the retained nodes in increasing order, one slot per set bit |
| CsrBuilder.ResultOverrun | cpp/src/hkreduce/python_interface/types.cpp:274-278 | as written, node `i` is written into slot `i`, which lies past the end of the result when an earlier node is not retained |
| Drg.EdgeIsEntry | cpp/include/hkreduce/reducing/drg.h:96-103 | with zero-skipping iterators, the search follows an edge exactly when its dense coefficient is nonzero |
| Drg.EdgeAsWritten | cpp/include/hkreduce/reducing/drg.h:96-103 | with the iterator as written and element access through `getBit`/`setBit`, the search follows the nonzero edges and, in addition, the first stored entry of each row |
| Drg.RemoveEdges | cpp/include/hkreduce/reducing/drg.h:16-26 | every coefficient below the threshold becomes 0 and the rest are kept, with the structure unchanged |
| Drg.ThresholdTwice | cpp/include/hkreduce/reducing/drg.h:16-26 | removing weak edges twice at one threshold is the same as once |
| Drg.CheckAchievables | cpp/include/hkreduce/reducing/drg.h:82-112 | the depth-first search marks exactly the nodes reachable from the source, keeping the nodes marked before |
| Drg.Run | cpp/include/hkreduce/reducing/drg.h:114-139 | as intended, an out-of-range source is refused with invalid_argument; otherwise a node is marked exactly when it is reachable from some source over the edges at or above the threshold |
| Drg.RunAsWritten | cpp/include/hkreduce/reducing/drg.h:114-139 | as written, with element access through `getBit`/`setBit`, the source guard lets `source == n` through to out_of_range, and the search also follows each row's zeroed first entry |
| Drg.SourceGuardAsWrittenMisreports | cpp/include/hkreduce/reducing/drg.h:130-133 | a source equal to the node count is reported as out_of_range, not invalid_argument |
| Drg.SourceGuardsAgree | cpp/include/hkreduce/reducing/drg.h:130-133 | the two guards differ on `source == n` alone |
| Drg.SourcesRetained | cpp/include/hkreduce/reducing/drg.h:128-137 | every source is retained |
| Drg.RetainedAsWritten | cpp/include/hkreduce/reducing/drg.h:114-139 | whatever the intended run retains, the run as written (element access through `getBit`/`setBit`) retains too |
| Drg.ZeroEntryKeptAsWritten | cpp/include/hkreduce/reducing/drg.h:82-112 | with one edge 0 -> 1 of weight 0.5 and threshold 0.6, the run as written (element access through `getBit`/`setBit`) keeps node 1 and the intended run drops it |
| Drg.RetainedMonotone | cpp/include/hkreduce/reducing/drg.h:16-26 | raising the threshold never retains more nodes |
| Drgep.InsertToOrderedQueue | cpp/include/hkreduce/reducing/drgep.h:16-43 | a full queue refuses with "no space"; otherwise the queue grows by one node within the same capacity |
| Drgep.InsertKeepsOrder | cpp/include/hkreduce/reducing/drgep.h:16-43 | inserting a node that is not queued, after raising its length, keeps the queue ordered and adds exactly that node |
| Drgep.UpdateQueue | cpp/include/hkreduce/reducing/drgep.h:45-113 | a zero length, or a node not in the queue, is refused with invalid_argument; otherwise the queue is only permuted |
| Drgep.UpdateKeepsOrder | cpp/include/hkreduce/reducing/drgep.h:45-113 | raising the length of a queued node and updating the queue keeps it ordered and holding the same nodes |
| Drgep.Moved | cpp/include/hkreduce/reducing/drgep.h:107-111 | the move takes the node to just before its insertion point, shifts the nodes in between down by one, and permutes the queue |
| Drgep.CalcPathLengths | cpp/include/hkreduce/reducing/drgep.h:115-152 | an empty matrix refuses with "no space" and a source past the size with out_of_range; invalid_argument arises only from a coefficient above 1; a finished search gives the source length 1, every node whose length reaches the threshold has a chain from the source whose product reaches it, and on a nonnegative matrix every such node has such a length |
| Drgep.FoundKept | cpp/include/hkreduce/reducing/drgep.h:115-152 | found lengths at or above the threshold are exactly the nodes with a chain from the source whose product reaches it (the converse on nonnegative matrices) |
| Drgep.ChainBounded | cpp/include/hkreduce/reducing/drgep.h:115-152 | on a nonnegative matrix no chain from the source has a product above the length found for its end |
| Drgep.SourceKept | cpp/include/hkreduce/reducing/drgep.h:128-130 | the source is kept whenever the threshold is at most 1 |
| Drgep.Mark | cpp/include/hkreduce/reducing/drgep.h:171-178 | after a search, a node is marked when it was marked before or its length reaches the threshold |
| Drgep.Run | cpp/include/hkreduce/reducing/drgep.h:154-190 | the first failing search's error is the result; on success, every marked node is kept for some source and (on a nonnegative matrix) every node kept for some source is marked |
| Weights.TotalIgnoresInactive | hkreduce/algorithms.py:51-69 | dropping the reactions with zero net rate changes no sum of base rates |
| Weights.TotalInvolvingAtMost | hkreduce/algorithms.py:73-77 | the sum over the reactions involving `b` is at most the sum over all of them |
| Weights.DrgWeightBounded | hkreduce/algorithms.py:60-88 | DRG coefficients lie in [0, 1], and are 0 on the diagonal and in every row without a base rate |
| Weights.DrgepWeightBounded | hkreduce/algorithms.py:163-195 | DRGEP coefficients lie in [0, 1], and are 0 on the diagonal and in every row with a zero scale |
| Weights.OneHopBounded | hkreduce/algorithms.py:283-304 | each one-hop PFA coefficient lies in [0, 1] |
| Weights.TwoHopLoop | hkreduce/algorithms.py:308-329 | the loop zeroes the diagonal of the one-hop matrix through its views, and accumulates the two-hop sums over every intermediate; with no species, nothing is bound |
| Weights.PfaMatrix | hkreduce/algorithms.py:270-331 | the PFA matrix is the sum of the two one-hop and the two two-hop coefficients, and is refused when there are no species |
| Weights.PfaWeightBounded | hkreduce/algorithms.py:283-331 | PFA coefficients lie in [0, 2 + 2n] |
| Weights.PfaDiagonalKept | hkreduce/algorithms.py:331 | unlike DRG and DRGEP, the PFA diagonal is not forced to 0: for a two-species exchange it is 2 where theirs is 0 |
| Weights.WeightWithoutActive | hkreduce/algorithms.py:60 | without a reaction of nonzero net rate, every weight is 0 |
| Weights.BuildAsWrittenRaises | hkreduce/algorithms.py:93-99 | as written, every builder raises RuntimeError as soon as some reaction is active |
| Weights.BuildReadsBack | hkreduce/algorithms.py:53-114 | with the CSR layer as intended, the builder returns a finalized, valid matrix of the mechanism's size whose every entry reads back as the coefficient formula |
| Controller.CalcError | hkreduce/main.py:112-130 | a failed simulation gives error 1; otherwise the error is the largest capped deviation, and at least every single one |
| Controller.ExactDelaysNoError | hkreduce/main.py:125-130 | delays equal to the original ones give error 0 |
| Controller.Retrieve | hkreduce/main.py:44-65 | the first attempt whose error is below the bound is chosen; when none is, the retrieval fails |
| Controller.Start | hkreduce/main.py:155-173 | a threshold set by the user is refused exactly when its error exceeds the bound |
| Controller.StartPasses | hkreduce/main.py:155-173 | however it was chosen, the starting threshold's error is within the bound |
| Controller.TrialsIncrease | hkreduce/main.py:175-180 | with a positive step, the trial thresholds strictly increase |
| Controller.Ascend | hkreduce/main.py:175-194 | the ascent stops at the first later trial whose error exceeds the bound |
| Controller.RunAsWrittenCopiesFailing | hkreduce/main.py:175-198 | as written, the model copied out is always one whose error exceeds the bound |
| Controller.RunDeliversLastPassing | hkreduce/main.py:175-198 | as intended, the threshold delivered has an error within the bound, and one step above it the error is not within it |
| Controller.AscentCopiesFailingTrial | hkreduce/main.py:189-198 | with a user threshold of 1 and the error rising past the bound above 1.5, the program as written copies the model reduced at 2 |
| Dumper.New | hkreduce/utils.py:35-45 | a new dumper is closed, has no path, has saved nothing, and is not marked temporary |
| Dumper.Open | hkreduce/utils.py:53-72 | opening an open dumper is refused; otherwise the path is resolved once and the file opened; `file_is_tmp` is left as it was |
| Dumper.Close | hkreduce/utils.py:74-78 | closing a closed dumper is refused; otherwise only the file is dropped |
| Dumper.Clean | hkreduce/utils.py:80-94 | cleaning while open is refused; only files and directories marked temporary are removed, and only when `rm` is set |
| Dumper.WriteDataAsWritten | hkreduce/utils.py:96-102 | as written, a write is refused unless the file is open and its reported mode contains "w" |
| Dumper.WriteData | hkreduce/utils.py:96-102 | as intended, a write is refused exactly when the file is closed or not open for writing, and otherwise counts one more array |
| Dumper.ReadData | hkreduce/utils.py:104-112 | a read is refused unless the file is open for reading |
| Dumper.ReportedModeAllows | hkreduce/utils.py:56 | the mode string reported after `mode + "b"` allows reading as the mode does, but "w+" loses its "w" |
| Dumper.DefaultModeRefusesWrites | hkreduce/utils.py:53-100 | a dumper opened with the default mode "w+" refuses every write as written, while "w" works |
| Dumper.WritesCount | hkreduce/utils.py:96-102 | a dumper open for writing saves any number of arrays, counting each once |
| Dumper.ReopenSameFile | hkreduce/utils.py:58-70 | opening again after a close reuses the file of the first open |
| Dumper.CleanKeepsCreatedFile | hkreduce/utils.py:40-89 | as written, nothing sets `file_is_tmp`, so `clean` never removes a file the dumper created |
| Dumper.OpenMarkingCreated | hkreduce/utils.py:53-72 | as intended, a file the dumper created itself is marked temporary |
| Dumper.CleanRemovesCreatedFile | hkreduce/utils.py:80-94 | with that mark, cleaning a dumper that chose its own directory and name removes both the file and the directory |
| Messages.Classify | hkreduce/utils.py:250-260 | only an "other" message yields its payload; a "finished" message, and nothing else, is a ValueError |
| Messages.GetFromParent | hkreduce/utils.py:268-276 | a timed-out poll is a TimeoutError, a message of another type a RuntimeError, and an "other" message yields its payload |
| Messages.GetFromWorker | hkreduce/utils.py:231-260 | the wait ends at the first observation that decides it (a message, a worker that closed its end, or a passed deadline), and not before |
| Messages.SendRoundTrip | hkreduce/utils.py:262-276 | what is sent is received unchanged, on either side |
| Messages.NoTimeoutNoDeadline | hkreduce/utils.py:232-236 | without a positive timeout there is no deadline: only a message or a closed worker ends the wait |
| Workers.New | hkreduce/utils.py:321-328 | a new manager is neither open nor closed, and no worker has been called |
| Workers.Open | hkreduce/utils.py:330-335 | opening is refused once opened or closed; otherwise every worker is started once, in list order |
| Workers.ShutdownCalls | hkreduce/utils.py:340-358 | a worker is closed exactly when it is found dead at the first or the last check, and terminated exactly when it is alive at the first check and either no wait is granted or it is still alive after the wait; a dead worker is only closed |
| Workers.Close | hkreduce/utils.py:337-359 | closing is refused unless open and not yet closed; otherwise every worker is shut down in list order |
| Workers.Lifecycle | hkreduce/utils.py:320-359 | a new manager opens and closes once, after which it can be neither reopened nor closed again |
| Config.Alias | hkreduce/config.py:16-19 | private names keep their spelling, and every other name has each "_" written as "-" |
| Config.AliasRoundTrip | hkreduce/config.py:16-19 | a public name is recovered from its alias, and no public alias holds a "_" |
| Config.ValidateMixture | hkreduce/config.py:43-72 | with an equivalence ratio, fuel and oxidizer are both required, with no negative amount, and no reactants; otherwise reactants are required, with no negative amount |
| Config.CheckReactants | hkreduce/config.py:74-87 | a condition passes exactly when its reactants, fuel and oxidizer are all known species |
| Config.CheckSpecies | hkreduce/config.py:127-133 | the check passes exactly when the target, the retained species and every condition's mixture name known species only |
| Config.RecalcMaxError | hkreduce/config.py:115-125 | a "max-error" given in percent becomes a fraction, a value `float` refuses is left as it is, and every other key is untouched |
| Config.MaxErrorPercentRange | hkreduce/config.py:98-125 | after the rescaling, the maximum error passes the field's bounds exactly when the user's percentage lies strictly between 0 and 100 |
| Config.MarkThresholdSetByUser | hkreduce/config.py:108-113 | the flag is set afterwards exactly when the user gave "initial-threshold" or it was set already, and every other key is kept |
| Config.CalcNumThreads | hkreduce/config.py:185-195 | a missing thread count is one less than the number of CPUs when there are several, and a missing count of creating threads follows it |
| Config.DefaultThreadsPositive | hkreduce/config.py:185-195 | with any CPU at all, the default thread count is at least 1 |
| Versions.ParseNat | setup.py:139-155 | a component is read exactly when it is a nonempty string of decimal digits |
| Versions.ParseRender | setup.py:139-155 | every rendered number reads back as itself |
| Versions.SplitJoin | setup.py:139-155 | splitting what was joined with dots gives the pieces back |
| Versions.DottedParses | setup.py:139-155 | a version written with dots reads back as its components |
| Versions.BumpAt | setup.py:143-153 | the upper bound raises the first nonzero component among the first three; with all zeros, the last one given |
| Versions.LowerBelowUpper | setup.py:139-155 | the lower bound of a caret constraint lies below its upper bound |
| Versions.ConvertVersionSpec | setup.py:136-155 | a constraint without a caret is kept as it is; a caret constraint becomes `>=lower,<upper`, and is refused when a component cannot be read |
| Versions.ConvertReadsBack | setup.py:136-155 | both bounds of a converted constraint read back as the version components they were built from |
| Versions.Examples | setup.py:136-155 | the upper bound of 1.2.3 is 2.0.0, of 0.2.3 is 0.3.0, of 0.0.3 is 0.0.4, and of 0 is 1.0.0 |
| Versions.Listed | setup.py:157-166 | "python" is left out, and every other dependency is listed |
| Versions.ListedConcat | setup.py:157-166 | listing keeps the order of the dependencies |
| Versions.Dependencies | setup.py:157-166 | the listing fails exactly when some listed constraint cannot be read; otherwise it holds the entry of each listed dependency, in the order given |

## Left out

- Allocators, destructors, copy and move constructors and assignment operators are not modelled. Neither is `getArray`. Memory ownership has no counterpart among values.
- `DArrayCollection::remove` allocates `newSpaceSize` bytes where it needs `newSpaceSize` elements (array_based.h:580). Allocation sizes are outside the model.
- Sectioned.Insert models the copy `insert` (sectioned.h:345-384). The move `insert` (sectioned.h:173-200) computes the last used section as `(size + 1) / sectionSize`. The CSR matrix and the builders only call the copy form.
- Sectioned.New: the constructor throws a pointer to the exception (`throw new invalid_argument`, sectioned.h:86-89). The model reports the error as if the exception object were thrown.
- `clear` and `truncate` of the sectioned collection are not modelled. `clear` resets the sections but then truncates to a size it never lowered.
- `operator--` of the CSR iterator and of the handle (csr.h:299-316, abc.h:180-189) is not modelled. The reducers never step backwards. `CsrIterators.Next` still covers the restart state that `operator--` leaves behind.
- CsrIterators.NewIterAsWritten sets the iterator's `from` to the requested row. The constructor's parameter `from` shadows the member, and `this->from` is never assigned (csr.h:220-235). So in the code, `getFrom` and `operator++`'s `rows[this->from]` read an indeterminate value.
- Drgep.FindNode is an exact search for the node. `updateQueue` calls `bsearchLeft` (drgep.h:93-101), which the collections headers do not define.
  - Any bisection over the queue reads keys through the already raised `pathsLengths[node]`, and so can miss the node.
  - Example: the queue [a: 0.2, node: 0.3 raised to 0.9, b: 0.5] holds `0 <= compare` at every position, so an upper-bound search lands past `b`.
  - The program would then throw "No provided node in ordered queue", while the model moves the node.
  - With a coefficient above 1, a node already taken off the queue can be improved again. `updateQueue` then refuses it with invalid_argument, the only way the model's `calcPathLengths` reports that error.
- CsrBuilder.DispatchAsWritten takes the reducer's name as the string `method` holds. The parsing by `PyArg_ParseTuple` is not modelled.
  - `run_reducing` declares `char method[6]` and passes `&method` for the `"s"` format (types.cpp:191,195).
  - `"s"` stores a `const char*`, so the pointer's bytes land in the 6-byte array, which is undefined behaviour.
  - `strcmp` then compares those bytes. They differ from "DRG" for every name, so the DRG branch would run whatever the name.
- Csr.At, Csr.SetCoef and Drgep.InsertToOrderedQueue read `bsearchLeftToInsert` (csr.h:143,167; drgep.h:36,65) as the upper-bound insertion point of `bsearchRightToInsert`.
  - The C++ headers do not define `bsearchLeftToInsert`.
  - The earlier collections header `include/hkreduce/collections/algorithms.h:13-47` gives `bsearchLeft` that same body.
  - `at` and `setCoef` read `cols[idx - 1]` (csr.h:148,168), which only makes sense for the upper bound.
- Config.MarkThresholdSetByUser models the dictionary write at config.py:108-113. What pydantic does with the key is not modelled.
  - `_initial_threshold_set_by_user` is a private attribute (config.py:101).
  - Pydantic does not fill private attributes from input data, so the flag read at main.py:157 may stay False.
  - If so, a threshold the user gave would be replaced by the automatic retrieval. This is not established here.
- Bitmaps.Get, Drg.CheckAchievables and Drgep.Mark read and write bitmap elements through `getBit`/`setBit` of the word. The code goes through `Bitmap::operator[]` and `BoolReference`, which differ in three ways:
  - `BoolSection::getReference` (bitmap.h:75-81) calls a three-argument `BoolReference` constructor, but only a two-argument one exists (bool_reference.h:14).
  - `BoolReference::operator=(bool)` (bool_reference.h:30-40) updates a local copy of the byte and never stores it. So `achievables[source] = true` (drg.h:90), `isAchievable = true` (drg.h:102) and `result[i] = true` (drgep.h:179) change nothing.
  - `operator bool` (bool_reference.h:19-24) divides the bit index by `sizeof(unsigned char)`, which is 1. It therefore reads byte `bitIdx`, not byte `bitIdx / 8`, and shifts it by `bitIdx`.
  
  The model gives the bit semantics these accessors evidently intend. The `AsWritten` members of DRG differ from the code only in their other defects, not in these.
- BoolSections.InsertBit and BoolSections.RemoveBit take two 64-bit shifts by 64 as the empty mask. C++ leaves both undefined.
  - `ALL_BITS_EQUAL_ONE >> 64` is reached at bit index 0 in `insert` and `remove` (bitmap.h:49,58).
  - `ALL_BITS_EQUAL_ONE << 64` is reached by `remove(63, ...)` (bitmap.h:59).
  - On x86 the hardware reduces the shift count to 0, so the mask would be all ones. For the second shift that gives a different word than the model's.
- CsrBuilder.New takes a nonnegative size below the `Py_ssize_t` limit. A negative size is not modelled.
  - `__init__` casts it to a huge `size_t` (types.cpp:54).
  - Constructing the rows then fails with RuntimeError, or returns -1 after `bad_alloc` (types.cpp:63-94).
  - `CsrBuilder.ToSize` models the cast, but no model of `__init__` takes its result.
- Drgep.Expand walks each row with the iterator as written. A zeroed first entry takes the `continue` for a zero product, so it changes no length. This is why DRGEP needs no as-written twin.
- PFA `run` (the reducer the dispatch falls back to) is not among the modelled reducers. Its header is not part of this model.
- Controller.CalcError requires nonzero original delays, and at least as many simulated delays as originals (Python raises IndexError on fewer, main.py:126-127). With `orig_i == 0`, Python's float division raises ZeroDivisionError, or numpy gives inf/nan (main.py:127). IEEE infinities and NaN are not modelled.
- Controller.Run and Controller.RunAsWritten take a `fuel` bound on the ascent. The loop of main.py:176-194 has no bound of its own. A run out of fuel returns `None`, and `Ascend`'s contract says every trial tried passed.
- Controller: the reducers, the simulations, the reduced-model files and the copy of the result (main.py:67-110, 196-200) are outside the model. The error of a threshold is the parameter `errorAt`.
- Weights: PFA sets the state with `st.TPX` from mass fractions (algorithms.py:235), where DRG and DRGEP use `st.TPY` (24, 128). The Cantera state and its rates are a parameter (`Kinetics`), so the difference is not visible in the model.
- Weights: the saving of net rates and matrices (`save=True`) is left out. It only writes files.
- Versions.ParseNat accepts nonempty ASCII digit strings only. Python's `int` also accepts:
  - surrounding whitespace, so "^ 1.2" gives ">=1.2,<2.0.0" in setup.py:139-155;
  - a sign, including negative components;
  - single underscores between digits;
  - non-ASCII decimal digits.
  
  The model refuses each of these.
- Workers: the shifter thread, the pipes and process start-up (`Worker.start`, `run`, utils.py:126-314) are left out. A worker is modelled by the calls it receives and by whether it is alive at each check.
- Messages.GetFromWorker: the clock and the queue are given as a sequence of observations, one per poll.
- Config: only the validators are modelled. Field types and default values are pydantic's business.

## Findings

The guard `idx > size` of sectioned `replace` (sectioned.h:141) is weaker than
`operator[]`'s. `Sectioned.ReplaceGuardIsMasked` proves that the section's
own bounds check hides it, so it is not listed below.

| source | as written | input that shows it | evidently intended | confidence | as-written member | corrected member |
|---|---|---|---|---|---|---|
| cpp/src/hkreduce/python_interface/types.cpp:126 | `flags \| NPY_C_CONTIGUOUS == 0` parses as `flags \| 0`, so any array with a flag set is refused as "not in C format" | the row of a C-ordered 2-D float64 array (flag C_CONTIGUOUS set), as the weight builders pass it | refuse only when the C-contiguous bit is clear | high, not executed | CsrBuilder.AddRowsAsWrittenRefused | CsrBuilder.BuildRoundTrip |
| cpp/src/hkreduce/python_interface/types.cpp:220 | the same precedence slip in `run_reducing`'s check of the sources array | a C-contiguous `uintp` sources array | refuse only when the C-contiguous bit is clear | high, not executed | CsrBuilder.RunChecksAsWritten | CsrBuilder.RunChecks |
| hkreduce/algorithms.py:93-99 | every builder raises RuntimeError once some reaction is active, because `add_row` refuses the first row | any mechanism with a reaction of nonzero net rate | the rows are added and the matrix built | high, not executed | Weights.BuildAsWrittenRaises | Weights.BuildReadsBack |
| cpp/src/hkreduce/python_interface/types.cpp:167-177 | `finalized` is never set, and "Already finalized" is reported without returning, so a second call accumulates the offsets again | two rows with one entry each, finalized twice: the last offset is 3 for 2 entries | refuse a second finalize | high, not executed | CsrBuilder.SecondFinalizeBreaksShape | CsrBuilder.Finalize |
| cpp/src/hkreduce/python_interface/types.cpp:213-215 | the "Matrix is not finalized" error is set but the function goes on | `run_reducing` on a freshly made 1×1 matrix with sources [0] | return NULL after setting the error | high, not executed | CsrBuilder.UnfinalizedRunAdmitted | CsrBuilder.RunChecks |
| cpp/src/hkreduce/python_interface/types.cpp:234-243 | `strcmp(...)` is nonzero when the strings differ, and each branch tests it as "equal" | method "DRG", once `method` holds the name | `strcmp(...) == 0`: "DRG" runs DRG, "DRGEP" runs DRGEP, anything else PFA | medium (the tests are inverted in the text; the name reaches `method` only under the parsing caveat under "Left out"), not executed | CsrBuilder.DispatchAsWrittenMisroutes | CsrBuilder.DispatchByName |
| cpp/src/hkreduce/python_interface/types.cpp:274-278 | node `i` is written into slot `i` of an array with one slot per retained node | retained bits [false, true]: the write lands at slot 1 of a 1-slot array | write the k-th retained node into slot k | high, not executed | CsrBuilder.ResultOverrun | CsrBuilder.MarkedIndices |
| cpp/include/hkreduce/reducing/drg.h:130 | `source > size` lets `source == size` through, and `achievables[source]` then throws out_of_range | 3 nodes, source 3 | `source >= size`, invalid_argument | high, not executed | Drg.SourceGuardAsWrittenMisreports | Drg.SourceGuard |
| cpp/include/hkreduce/adjacency_matrix/csr.h:226-234 | the iterator constructor stops on the first column at least `to` whatever its coefficient, while `operator++` skips zeros; DRG's search then follows an edge its weak-edge removal zeroed | edge 0 -> 1 of weight 0.5, threshold 0.6, source 0: node 1 is kept | the constructor skips zero coefficients as `operator++` does | medium, not executed | Drg.ZeroEntryKeptAsWritten | Drg.Run |
| cpp/include/hkreduce/collections/algorithms.h:119-121 | the predicate handed to the bisection is `0 <= compare(middle, element)`, the reverse of "at most equal" | search 2 in [1, 2, 3]: "not found" | `compare(middle, element) <= 0` | high, not executed | Algorithms.BsearchRightMissesPresent | Algorithms.BsearchRightFinds |
| cpp/include/hkreduce/collections/algorithms.h:126-130 | the candidate just before the insertion point is read even when that point is `start` | the empty range [1, 1) of [2, 2], searching 2: index 0 | report "not found" when the insertion point is `start` | high, not executed | Algorithms.BsearchRightLeavesRange | Algorithms.BsearchRightFinds |
| cpp/include/hkreduce/collections/bitmap.h:321-337 | the loop over the later words discards the bits they pull out, and `return leaved;` comes before the size update | 65 set bits, remove bool 0: bool 63 becomes false and the size stays 65 | carry each pulled bit into the word before, then lower the size | high, not executed | Bitmaps.RemoveAsWrittenLosesCarry | Bitmaps.Remove |
| cpp/include/hkreduce/collections/sectioned.h:162-168 | the loop bound `newSectionCount - sections.getSize()` shrinks as sections are appended (and grows as they are removed), so only about half the missing sections are added | resize an empty collection of section size 1 to 4: 2 sections | add or remove exactly the difference | high, not executed | Sectioned.ResizeAsWrittenStopsHalfway | Sectioned.Resize |
| cpp/include/hkreduce/collections/sectioned.h:210 | `section.remove(sectionIdx)` removes offset `sectionIdx`, not `idxInSection` | [10, 20] in one section of two, remove position 1: returns 10 | `section.remove(idxInSection)` | high, not executed | Sectioned.RemoveAsWrittenTakesWrongElement | Sectioned.Remove |
| hkreduce/main.py:175-198 | the ascent breaks at the first threshold whose error is too large, and then copies the model reduced at that threshold | user threshold 1, step 1, error above the bound past 1.5: the model at 2 is copied | copy the last model whose error was within the bound | high, not executed | Controller.AscentCopiesFailingTrial | Controller.RunDeliversLastPassing |
| hkreduce/utils.py:53-100 | the default mode "w+" opens with "w+b", whose file object reports mode "rb+", so `"w" not in mode` refuses every write | `NumpyArrayDumper().open()` then `write_data(a)`: ValueError | a file opened with "w+" accepts writes | medium, not executed | Dumper.DefaultModeRefusesWrites | Dumper.WriteData |
| hkreduce/utils.py:40-89 | `file_is_tmp` is never set, so `clean` never removes a file the dumper created | open with no directory and no name, close, clean: the file stays | mark a file the dumper created itself as temporary | medium, not executed | Dumper.CleanKeepsCreatedFile | Dumper.CleanRemovesCreatedFile |
| cpp/include/hkreduce/collections/bitmap.h:307-337 | the size is not lowered after a removal, because of the early return | any removal from a nonempty bitmap: the size stays | lower the size by one | high, not executed | Bitmaps.RemoveAsWritten | Bitmaps.Remove |
