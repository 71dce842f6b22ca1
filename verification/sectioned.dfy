/** The operations of `SectionedCollection` over the packed layout. */
module Sectioned {
  import opened Wrappers
  import opened Seqs
  import opened SectionLayout
  import Arith

  // ---------------------------------------------------------------------
  // Construction and element access

  /** The constructor: refuses a zero section size and a missing allocator,
      otherwise allocates ⌈capacity / sectionSize⌉ empty sections. */
  function New<T>(capacity: nat, allocatorPresent: bool, sectionSize: nat): (r: Result<Collection<T>, CppError>)
    ensures r.Failure? <==> sectionSize == 0 || !allocatorPresent
    ensures r.Failure? ==> r.error == InvalidArgument
    ensures r.Success? ==> Valid(r.value) && r.value.size == 0 && Elements(r.value) == []
    ensures r.Success? ==> (AllocatedSize(r.value) >= capacity
      && AllocatedSize(r.value) < capacity + sectionSize)
  {
    if sectionSize == 0 || !allocatorPresent then Failure(InvalidArgument)
    else
      var count := Arith.CeilDiv(capacity, sectionSize);
      var secs: seq<seq<T>> := seq(count, _ => []);
      EmptySectionsFlatten(secs);
      assert AllocatedSize(Collection(secs, sectionSize, 0)) == count * sectionSize;
      Success(Collection(secs, sectionSize, 0))
  }

  /** `getAllocatedSize`: the slots of all sections together. */
  function AllocatedSize<T>(c: Collection<T>): nat {
    c.sectionSize * |c.sections|
  }

  /** The allocated slots of a packed collection cover its elements. */
  lemma AllocatedCoversSize<T>(c: Collection<T>)
    requires Valid(c)
    ensures c.size <= AllocatedSize(c)
  {
    ValidLength(c);
    FlattenBound(c.sections, c.sectionSize);
  }

  /** `operator[]`: element `idx` read through the section mapping. */
  function Get<T>(c: Collection<T>, idx: nat): (r: Result<T, CppError>)
    requires Valid(c)
    ensures r.Failure? <==> idx >= c.size
    ensures r.Failure? ==> r.error == OutOfRange
    ensures r.Success? ==> idx < |Elements(c)| && r.value == Elements(c)[idx]
  {
    if idx >= c.size then Failure(OutOfRange)
    else
      ValidIndex(c, idx);
      Success(c.sections[idx / c.sectionSize][idx % c.sectionSize])
  }

  /** `replace` with the bound the collection promises (`idx >= size`
      refused): the sequence changes at `idx` only. */
  function Replace<T>(c: Collection<T>, idx: nat, x: T): (r: Result<(Collection<T>, T), CppError>)
    requires Valid(c)
    ensures r.Failure? <==> idx >= c.size
    ensures r.Failure? ==> r.error == OutOfRange
    ensures r.Success? ==> (Valid(r.value.0) && r.value.0.size == c.size
      && idx < |Elements(c)|
      && r.value.1 == Elements(c)[idx]
      && Elements(r.value.0) == Elements(c)[idx := x])
  {
    if idx >= c.size then Failure(OutOfRange)
    else Success(ReplaceIndex(c, idx, x))
  }

  /** The element at position `idx` is overwritten in place: offset
      `idx % ss` of section `idx / ss`. */
  function ReplaceIndex<T>(c: Collection<T>, idx: nat, x: T): (r: (Collection<T>, T))
    requires Valid(c) && idx < c.size
    ensures Valid(r.0) && r.0.size == c.size
    ensures idx < |Elements(c)| && r.1 == Elements(c)[idx]
    ensures Elements(r.0) == Elements(c)[idx := x]
  {
    var q, o := idx / c.sectionSize, idx % c.sectionSize;
    PositionOf(c, idx, q, o);
    FullBefore(c, idx, q);
    ReplaceInSection(c, q, o, idx, x)
  }

  /** Overwrites offset `o` of section `q`, which is position `pos`. */
  function ReplaceInSection<T>(c: Collection<T>, q: nat, o: nat, pos: nat, x: T): (r: (Collection<T>, T))
    requires Valid(c) && q < |c.sections| && o < |c.sections[q]|
    requires pos == q * c.sectionSize + o
    requires forall j :: 0 <= j < q ==> |c.sections[j]| == c.sectionSize
    ensures Valid(r.0) && r.0.size == c.size
    ensures pos < |Elements(c)| && r.1 == Elements(c)[pos]
    ensures Elements(r.0) == Elements(c)[pos := x]
  {
    var s := c.sections[q][o := x];
    UpdateInSection(c.sections, c.sectionSize, q, o, x, pos);
    IndexInSection(c.sections, c.sectionSize, q, o);
    SameLengthKeepsValid(c, q, s);
    (c.(sections := c.sections[q := s]), c.sections[q][o])
  }

  /** `replace` as written: the guard is `idx > size`, and the section lookup
      (`sections[idx / ss][idx % ss]`) supplies the remaining checks. */
  function ReplaceAsWritten<T>(c: Collection<T>, idx: nat, x: T): (r: Result<(Collection<T>, T), CppError>)
    requires c.sectionSize > 0
    ensures r.Success? ==> idx <= c.size
  {
    var ss := c.sectionSize;
    if idx > c.size then Failure(OutOfRange)
    else if idx / ss >= |c.sections| then Failure(OutOfRange)
    else if idx % ss >= |c.sections[idx / ss]| then Failure(OutOfRange)
    else Success((c.(sections := c.sections[idx / ss := c.sections[idx / ss][idx % ss := x]]),
                  c.sections[idx / ss][idx % ss]))
  }

  /** The weak `idx > size` guard is harmless: at `idx == size` the section
      lookup throws out_of_range, so the written code behaves exactly as the
      intended bound does on every packed collection. */
  lemma ReplaceGuardIsMasked<T>(c: Collection<T>, idx: nat, x: T)
    requires Valid(c)
    ensures ReplaceAsWritten(c, idx, x) == Replace(c, idx, x)
  {
    if idx < c.size {
      ValidIndex(c, idx);
    }
  }

  // ---------------------------------------------------------------------
  // resize

  /** The growing loop of `resize` as written: the bound
      `newSectionCount - sections.getSize()` is re-read after every append. */
  function GrowLoop<T>(secs: seq<seq<T>>, i: nat, newCount: nat): (r: seq<seq<T>>)
    ensures |secs| + i < newCount ==> |r| == |secs| + (newCount - |secs| - i + 1) / 2
    ensures |secs| + i >= newCount ==> r == secs
    ensures r[..|secs|] == secs
    ensures forall j :: |secs| <= j < |r| ==> r[j] == []
    decreases newCount - |secs| - i
  {
    if |secs| + i < newCount then GrowLoop(secs + [[]], i + 1, newCount) else secs
  }

  /** The shrinking loop of `resize` as written, with the same moving bound. */
  function ShrinkLoop<T>(secs: seq<seq<T>>, i: nat, newCount: nat): (r: seq<seq<T>>)
    ensures newCount + i < |secs| ==> |r| == |secs| - (|secs| - newCount - i + 1) / 2
    ensures newCount + i >= |secs| ==> r == secs
    ensures r == secs[..|r|]
    decreases |secs| - newCount - i
  {
    if newCount + i < |secs| then ShrinkLoop(secs[..|secs| - 1], i + 1, newCount) else secs
  }

  /** `resize` as written: refuses a capacity below the size, then appends or
      removes sections; each loop stops half-way. */
  function ResizeAsWritten<T>(c: Collection<T>, newSpaceSize: nat): (r: Result<Collection<T>, CppError>)
    requires c.sectionSize > 0
    ensures r.Failure? <==> newSpaceSize < c.size
    ensures r.Success? ==> r.value.size == c.size && r.value.sectionSize == c.sectionSize
  {
    if newSpaceSize < c.size then Failure(InvalidArgument)
    else
      var newCount := Arith.CeilDiv(newSpaceSize, c.sectionSize);
      if newCount > |c.sections| then Success(c.(sections := GrowLoop(c.sections, 0, newCount)))
      else Success(c.(sections := ShrinkLoop(c.sections, 0, newCount)))
  }

  /** `resize` as intended: exactly ⌈newSpaceSize / sectionSize⌉ sections, the
      elements untouched. */
  function Resize<T>(c: Collection<T>, newSpaceSize: nat): (r: Result<Collection<T>, CppError>)
    requires Valid(c)
    ensures r.Failure? <==> newSpaceSize < c.size
    ensures r.Failure? ==> r.error == InvalidArgument
    ensures r.Success? ==> (Valid(r.value) && r.value.size == c.size
      && Elements(r.value) == Elements(c)
      && |r.value.sections| == Arith.CeilDiv(newSpaceSize, c.sectionSize)
      && newSpaceSize <= AllocatedSize(r.value) < newSpaceSize + c.sectionSize)
  {
    if newSpaceSize < c.size then Failure(InvalidArgument)
    else
      var ss := c.sectionSize;
      var newCount := Arith.CeilDiv(newSpaceSize, ss);
      var f, rem := c.size / ss, c.size % ss;
      UsedSectionsFit(c.size, newSpaceSize, ss);
      Success(c.(sections := WithSectionCount(c, newCount)))
  }

  /** The sections of `c`, padded with empty sections or cut down to `count`. */
  function WithSectionCount<T>(c: Collection<T>, count: nat): (secs: seq<seq<T>>)
    requires Valid(c)
    requires c.size / c.sectionSize + (if c.size % c.sectionSize > 0 then 1 else 0) <= count
    ensures |secs| == count
    ensures Valid(c.(sections := secs)) && Flatten(secs) == Flatten(c.sections)
  {
    var ss := c.sectionSize;
    var f, rem := c.size / ss, c.size % ss;
    if count > |c.sections| then
      var pad: seq<seq<T>> := seq(count - |c.sections|, _ => []);
      PadKeepsShape(c.sections, ss, f, rem, pad);
      c.sections + pad
    else
      CutKeepsShape(c.sections, ss, f, rem, count);
      c.sections[..count]
  }

  lemma PadKeepsShape<T>(secs: seq<seq<T>>, ss: nat, f: nat, rem: nat, pad: seq<seq<T>>)
    requires Shape(secs, ss, f, rem)
    requires forall j :: 0 <= j < |pad| ==> pad[j] == []
    ensures Shape(secs + pad, ss, f, rem) && Flatten(secs + pad) == Flatten(secs)
  {
    FlattenConcat(secs, pad);
    EmptySectionsFlatten(pad);
  }

  lemma CutKeepsShape<T>(secs: seq<seq<T>>, ss: nat, f: nat, rem: nat, count: nat)
    requires Shape(secs, ss, f, rem)
    requires f + (if rem > 0 then 1 else 0) <= count <= |secs|
    ensures Shape(secs[..count], ss, f, rem) && Flatten(secs[..count]) == Flatten(secs)
  {
    assert secs == secs[..count] + secs[count..];
    FlattenConcat(secs[..count], secs[count..]);
    EmptySectionsFlatten(secs[count..]);
  }

  /** A capacity that holds the elements needs no fewer sections than are used. */
  lemma UsedSectionsFit(n: nat, newSpaceSize: nat, ss: nat)
    requires ss > 0 && n <= newSpaceSize
    ensures n / ss + (if n % ss > 0 then 1 else 0) <= Arith.CeilDiv(newSpaceSize, ss)
  {
    var c := Arith.CeilDiv(newSpaceSize, ss);
    var used := n / ss + (if n % ss > 0 then 1 else 0);
    if c < used {
      Arith.MulMonotone(c, used - 1, ss);
      assert false;
    }
  }

  /** Growing from no sections to four adds only two: the written loop
      re-reads its shrinking bound. */
  lemma ResizeAsWrittenStopsHalfway()
    ensures var c: Collection<int> := Collection([], 1, 0);
      && |ResizeAsWritten(c, 4).value.sections| == 2
      && |Resize(c, 4).value.sections| == 4
  {
    var c: Collection<int> := Collection([], 1, 0);
    assert Arith.CeilDiv(4, 1) == 4;
  }

  /** When only one section is missing (the one use of `resize` inside
      `insert`), the written loop does add it. */
  lemma ResizeAsWrittenAddsOneSection<T>(c: Collection<T>, newSpaceSize: nat)
    requires Valid(c) && c.size <= newSpaceSize
    requires Arith.CeilDiv(newSpaceSize, c.sectionSize) == |c.sections| + 1
    ensures ResizeAsWritten(c, newSpaceSize) == Resize(c, newSpaceSize)
  {
    var secs := GrowLoop(c.sections, 0, |c.sections| + 1);
    assert secs == c.sections + [[]];
    assert secs == c.sections + seq(1, _ => []);
  }

  // ---------------------------------------------------------------------
  // insert

  /** The shifting loop of `insert`: for `i` from `last` down to `lo + 1`,
      the last element of section `i - 1` moves to the front of section `i`. */
  function Cascade<T>(secs: seq<seq<T>>, i: nat, lo: nat, ss: nat): (r: seq<seq<T>>)
    requires lo <= i < |secs| && ss > 0
    requires forall j :: lo <= j < i ==> |secs[j]| == ss
    requires |secs[i]| < ss
    ensures |r| == |secs|
    ensures Flatten(r) == Flatten(secs)
    ensures forall j :: 0 <= j < |secs| && (j < lo || i < j) ==> r[j] == secs[j]
    ensures lo < i ==> r[lo] == secs[lo][..ss - 1]
    ensures forall j :: lo < j < i ==> |r[j]| == ss
    ensures lo < i ==> |r[i]| == |secs[i]| + 1
    ensures lo == i ==> r == secs
    decreases i
  {
    if i == lo then secs
    else
      var moved := secs[i - 1][ss - 1];
      var next := secs[i - 1 := secs[i - 1][..ss - 1]][i := [moved] + secs[i]];
      ShiftPreservesFlatten(secs, i, ss);
      Cascade(next, i - 1, lo, ss)
  }

  /** Moving the last element of section `i - 1` to the front of section `i`
      leaves the concatenation unchanged. */
  lemma ShiftPreservesFlatten<T>(secs: seq<seq<T>>, i: nat, ss: nat)
    requires 0 < i < |secs| && ss > 0 && |secs[i - 1]| == ss
    ensures Flatten(secs[i - 1 := secs[i - 1][..ss - 1]][i := [secs[i - 1][ss - 1]] + secs[i]]) == Flatten(secs)
  {
    var a, b := secs[i - 1][..ss - 1], [secs[i - 1][ss - 1]] + secs[i];
    var t := secs[i - 1 := a][i := b];
    assert secs == secs[..i - 1] + [secs[i - 1], secs[i]] + secs[i + 1..];
    assert t == secs[..i - 1] + [a, b] + secs[i + 1..];
    FlattenConcat(secs[..i - 1] + [secs[i - 1], secs[i]], secs[i + 1..]);
    FlattenConcat(secs[..i - 1], [secs[i - 1], secs[i]]);
    FlattenConcat(secs[..i - 1] + [a, b], secs[i + 1..]);
    FlattenConcat(secs[..i - 1], [a, b]);
    FlattenPair(a, b);
    FlattenPair(secs[i - 1], secs[i]);
    assert a + b == secs[i - 1] + secs[i];
  }

  /** Copy-`insert`: refuses `idx > size`; grows by one section when every
      slot is used; places `x` in its section, first shifting one element
      from each full section into the next when the target is full. */
  function Insert<T>(c: Collection<T>, idx: nat, x: T): (r: Result<Collection<T>, CppError>)
    requires Valid(c)
    ensures r.Failure? <==> idx > c.size
    ensures r.Failure? ==> r.error == OutOfRange
    ensures r.Success? ==> (Valid(r.value) && r.value.size == c.size + 1
      && r.value.sectionSize == c.sectionSize
      && idx <= |Elements(c)|
      && Elements(r.value) == InsertAt(Elements(c), idx, x))
    ensures r.Success? && c.size == AllocatedSize(c) ==> |r.value.sections| == |c.sections| + 1
    ensures r.Success? && c.size < AllocatedSize(c) ==> |r.value.sections| == |c.sections|
  {
    if idx > c.size then Failure(OutOfRange)
    else
      ValidLength(c);
      var ss := c.sectionSize;
      var f, rem := c.size / ss, c.size % ss;
      Arith.DivMod(c.size, ss);
      var secs := PlaceInSections(GrowIfFull(c), ss, c.size, idx, x, f, rem);
      GrownShape(secs, ss, f, rem);
      Success(Collection(secs, c.sectionSize, c.size + 1))
  }

  /** The `resize(size + sectionSize)` step of `insert`: one more (empty)
      section when every slot is used, otherwise the sections unchanged. */
  function GrowIfFull<T>(c: Collection<T>): (secs: seq<seq<T>>)
    requires Valid(c)
    ensures Shape(secs, c.sectionSize, c.size / c.sectionSize, c.size % c.sectionSize)
    ensures c.size / c.sectionSize < |secs|
    ensures Flatten(secs) == Flatten(c.sections)
    ensures c.size == AllocatedSize(c) ==> |secs| == |c.sections| + 1
    ensures c.size != AllocatedSize(c) ==> secs == c.sections
  {
    if c.size == c.sectionSize * |c.sections| then
      var pad: seq<seq<T>> := [[]];
      FullGrows(c, pad);
      c.sections + pad
    else
      RoomLeft(c);
      c.sections
  }

  /** A full collection stays packed when an empty section is appended. */
  lemma FullGrows<T>(c: Collection<T>, pad: seq<seq<T>>)
    requires Valid(c) && c.size == c.sectionSize * |c.sections| && pad == [[]]
    ensures var secs := c.sections + pad;
      && Shape(secs, c.sectionSize, c.size / c.sectionSize, c.size % c.sectionSize)
      && c.size / c.sectionSize < |secs|
      && Flatten(secs) == Flatten(c.sections)
  {
    var ss := c.sectionSize;
    Arith.DivModUnique(c.size, ss, |c.sections|, 0);
    PadKeepsShape(c.sections, ss, c.size / ss, c.size % ss, pad);
  }

  /** A collection that is not full has a section with a free slot. */
  lemma RoomLeft<T>(c: Collection<T>)
    requires Valid(c) && c.size != c.sectionSize * |c.sections|
    ensures c.size / c.sectionSize < |c.sections|
  {
    var ss := c.sectionSize;
    var f := c.size / ss;
    Arith.DivMod(c.size, ss);
    if f == |c.sections| {
      assert false;
    }
  }

  /** Places `x` at position `idx` of a packed layout of `n` elements,
      `f` full sections and `rem` more, that has room: directly when its
      section has a free slot, otherwise after the cascade has made room. */
  function PlaceInSections<T>(secs: seq<seq<T>>, ss: nat, n: nat, idx: nat, x: T, f: nat, rem: nat): (r: seq<seq<T>>)
    requires ss > 0 && idx <= n && rem < ss && n == f * ss + rem
    requires Shape(secs, ss, f, rem) && f < |secs|
    ensures |r| == |secs|
    ensures Grown(r, ss, f, rem)
    ensures idx <= |Flatten(secs)|
    ensures Flatten(r) == InsertAt(Flatten(secs), idx, x)
  {
    Position(ss, n, idx, f, rem);
    PlaceAt(secs, ss, n, idx, x, f, rem, idx / ss, idx % ss)
  }

  /** Where a position `idx <= n` falls among the sections. */
  lemma Position(ss: nat, n: nat, idx: nat, f: nat, rem: nat)
    requires ss > 0 && idx <= n && rem < ss && n == f * ss + rem
    ensures idx == (idx / ss) * ss + idx % ss && idx % ss < ss
    ensures idx / ss <= f && (idx / ss == f ==> idx % ss <= rem)
  {
    Arith.DivModUnique(n, ss, f, rem);
    SplitIndex(idx, n, ss);
    Arith.DivMod(idx, ss);
  }

  /** The placement, with `n` split as `f` full sections and `rem` more and
      `idx` as offset `o` of section `q`. */
  function PlaceAt<T>(secs: seq<seq<T>>, ss: nat, n: nat, idx: nat, x: T, f: nat, rem: nat, q: nat, o: nat): (r: seq<seq<T>>)
    requires ss > 0 && rem < ss && n == f * ss + rem && idx == q * ss + o && o < ss
    requires q <= f < |secs| && (q == f ==> o <= rem) && Shape(secs, ss, f, rem)
    ensures |r| == |secs|
    ensures Grown(r, ss, f, rem)
    ensures idx <= |Flatten(secs)|
    ensures Flatten(r) == InsertAt(Flatten(secs), idx, x)
  {
    if |secs[q]| < ss then PlaceDirect(secs, ss, n, idx, x, f, rem, q, o)
    else PlaceAfterCascade(secs, ss, n, idx, x, f, rem, q, o)
  }

  /** The last used section has a free slot: `x` goes straight into it. */
  function PlaceDirect<T>(secs: seq<seq<T>>, ss: nat, n: nat, idx: nat, x: T, f: nat, rem: nat, q: nat, o: nat): (r: seq<seq<T>>)
    requires ss > 0 && rem < ss && n == f * ss + rem && idx == q * ss + o && o < ss
    requires q <= f < |secs| && (q == f ==> o <= rem) && Shape(secs, ss, f, rem)
    requires |secs[q]| < ss
    ensures |r| == |secs|
    ensures Grown(r, ss, f, rem)
    ensures idx <= |Flatten(secs)|
    ensures Flatten(r) == InsertAt(Flatten(secs), idx, x)
  {
    assert q == f;
    var s := InsertAt(secs[q], o, x);
    InsertInSection(secs, ss, q, o, x, idx);
    var t := secs[q := s];
    t
  }

  /** Section `q` is full: the cascade first shifts one element out of each
      section from `q` up to the last used one `f`, then `x` goes into `q`. */
  function PlaceAfterCascade<T>(secs: seq<seq<T>>, ss: nat, n: nat, idx: nat, x: T, f: nat, rem: nat, q: nat, o: nat): (r: seq<seq<T>>)
    requires ss > 0 && rem < ss && n == f * ss + rem && idx == q * ss + o && o < ss
    requires q <= f < |secs| && (q == f ==> o <= rem) && Shape(secs, ss, f, rem)
    requires |secs[q]| >= ss
    ensures |r| == |secs|
    ensures Grown(r, ss, f, rem)
    ensures idx <= |Flatten(secs)|
    ensures Flatten(r) == InsertAt(Flatten(secs), idx, x)
  {
    assert q < f;
    var moved := Cascade(secs, f, q, ss);
    assert moved[..q] == secs[..q];
    var s := InsertAt(moved[q], o, x);
    InsertInSection(moved, ss, q, o, x, idx);
    var t := moved[q := s];
    t
  }

  // ---------------------------------------------------------------------
  // remove

  /** The refilling loop of `remove`: for `i` from `lo` up to `last - 1`, the
      first element of section `i + 1` is appended to section `i`. */
  function Pull<T>(secs: seq<seq<T>>, i: nat, last: nat, ss: nat): (r: seq<seq<T>>)
    requires i <= last < |secs| && ss > 0
    requires i < last ==> |secs[i]| == ss - 1
    requires forall j :: i < j < last ==> |secs[j]| == ss
    requires i < last ==> |secs[last]| > 0
    ensures |r| == |secs|
    ensures Flatten(r) == Flatten(secs)
    ensures forall j :: 0 <= j < |secs| && (j < i || last < j) ==> r[j] == secs[j]
    ensures forall j :: i <= j < last ==> |r[j]| == ss
    ensures i < last ==> |r[last]| == |secs[last]| - 1
    ensures i == last ==> r == secs
    decreases last - i
  {
    if i == last then secs
    else
      var moved := secs[i + 1][0];
      var next := secs[i := secs[i] + [moved]][i + 1 := secs[i + 1][1..]];
      PullPreservesFlatten(secs, i);
      Pull(next, i + 1, last, ss)
  }

  lemma PullPreservesFlatten<T>(secs: seq<seq<T>>, i: nat)
    requires i + 1 < |secs| && |secs[i + 1]| > 0
    ensures Flatten(secs[i := secs[i] + [secs[i + 1][0]]][i + 1 := secs[i + 1][1..]]) == Flatten(secs)
  {
    var a, b := secs[i] + [secs[i + 1][0]], secs[i + 1][1..];
    var t := secs[i := a][i + 1 := b];
    assert secs == secs[..i] + [secs[i], secs[i + 1]] + secs[i + 2..];
    assert t == secs[..i] + [a, b] + secs[i + 2..];
    FlattenConcat(secs[..i] + [secs[i], secs[i + 1]], secs[i + 2..]);
    FlattenConcat(secs[..i], [secs[i], secs[i + 1]]);
    FlattenConcat(secs[..i] + [a, b], secs[i + 2..]);
    FlattenConcat(secs[..i], [a, b]);
    FlattenPair(a, b);
    FlattenPair(secs[i], secs[i + 1]);
    assert a + b == secs[i] + secs[i + 1];
  }

  /** Takes the element at offset `off` out of section `q` and, when that
      section was full, refills it from the later used sections. */
  function Refill<T>(c: Collection<T>, q: nat, off: nat): (secs: seq<seq<T>>)
    requires Valid(c) && c.size > 0
    requires q < |c.sections| && off < |c.sections[q]|
    ensures |secs| == |c.sections|
    ensures Valid(Collection(secs, c.sectionSize, c.size - 1))
    ensures q * c.sectionSize + off < |Flatten(c.sections)|
    ensures Flatten(secs) == RemoveAt(Flatten(c.sections), q * c.sectionSize + off)
  {
    var ss := c.sectionSize;
    var last := (c.size - 1) / ss;
    LastUsed(c);
    var used := |c.sections[last]|;
    var pos := q * ss + off;
    var s := RemoveAt(c.sections[q], off);
    RemoveInSection(c.sections, ss, q, off, pos);
    var t := c.sections[q := s];
    if |s| + 1 == ss then RefillPulled(c, t, q, last) else RefillLast(c, t, q, last)
  }

  /** Section `q < last` lost an element: the later used sections refill it. */
  function RefillPulled<T>(c: Collection<T>, t: seq<seq<T>>, q: nat, last: nat): (secs: seq<seq<T>>)
    requires Valid(c) && c.size > 0 && last == (c.size - 1) / c.sectionSize
    requires last < |c.sections| && |t| == |c.sections| && q <= last
    requires forall j :: 0 <= j < |t| && j != q ==> t[j] == c.sections[j]
    requires forall j :: 0 <= j < last ==> |c.sections[j]| == c.sectionSize
    requires 0 < |c.sections[last]| <= c.sectionSize
    requires forall j :: last < j < |c.sections| ==> c.sections[j] == []
    requires c.size == last * c.sectionSize + |c.sections[last]|
    requires |t[q]| + 1 == c.sectionSize && |c.sections[q]| == c.sectionSize
    ensures |secs| == |t| && Flatten(secs) == Flatten(t)
    ensures Valid(Collection(secs, c.sectionSize, c.size - 1))
  {
    var ss, used := c.sectionSize, |c.sections[last]|;
    var u := Pull(t, q, last, ss);
    assert |u[last]| == used - 1;
    assert Shape(u, ss, last, used - 1);
    ShapeIsValid(u, ss, last, used - 1, c.size - 1);
    u
  }

  /** Section `q` was the last used one: nothing moves. */
  function RefillLast<T>(c: Collection<T>, t: seq<seq<T>>, q: nat, last: nat): (secs: seq<seq<T>>)
    requires Valid(c) && c.size > 0 && last == (c.size - 1) / c.sectionSize
    requires last < |c.sections| && |t| == |c.sections| && q < |t|
    requires forall j :: 0 <= j < |t| && j != q ==> t[j] == c.sections[j]
    requires forall j :: 0 <= j < last ==> |c.sections[j]| == c.sectionSize
    requires 0 < |c.sections[last]| <= c.sectionSize
    requires forall j :: last < j < |c.sections| ==> c.sections[j] == []
    requires c.size == last * c.sectionSize + |c.sections[last]|
    requires |t[q]| + 1 == |c.sections[q]| < c.sectionSize
    ensures |secs| == |t| && Flatten(secs) == Flatten(t)
    ensures Valid(Collection(secs, c.sectionSize, c.size - 1))
  {
    var ss, used := c.sectionSize, |c.sections[last]|;
    assert q == last;
    assert Shape(t, ss, last, used - 1);
    ShapeIsValid(t, ss, last, used - 1, c.size - 1);
    t
  }

  /** In a non-empty collection, section `(size - 1) / ss` is the last one
      holding elements: all before it are full and all after it empty. */
  lemma LastUsed<T>(c: Collection<T>)
    requires Valid(c) && c.size > 0
    ensures var last := (c.size - 1) / c.sectionSize;
      && last < |c.sections|
      && (forall j :: 0 <= j < last ==> |c.sections[j]| == c.sectionSize)
      && 0 < |c.sections[last]| <= c.sectionSize
      && (forall j :: last < j < |c.sections| ==> c.sections[j] == [])
      && c.size == last * c.sectionSize + |c.sections[last]|
  {
    var ss := c.sectionSize;
    var f, rem := c.size / ss, c.size % ss;
    LastUsedSection(c.size, ss);
    assert c.size == f * ss + rem;
    if rem == 0 {
      assert c.size == (f - 1) * ss + ss;
    }
  }

  /** Dropping trailing empty sections down to ⌈n / ss⌉ keeps the layout. */
  lemma DropFreeSections<T>(secs: seq<seq<T>>, ss: nat, n: nat)
    requires ss > 0 && Valid(Collection(secs, ss, n))
    ensures Arith.CeilDiv(n, ss) <= |secs|
    ensures Valid(Collection(secs[..Arith.CeilDiv(n, ss)], ss, n))
    ensures Flatten(secs[..Arith.CeilDiv(n, ss)]) == Flatten(secs)
  {
    var f, rem := n / ss, n % ss;
    var keep := Arith.CeilDiv(n, ss);
    assert keep == f + (if rem > 0 then 1 else 0);
    CutKeepsShape(secs, ss, f, rem, keep);
  }

  /** The common tail of both `remove` versions: take the element at offset
      `off` of section `q` (position `pos` of the sequence), refill, decrement the size and drop the
      `(allocated - size) / ss` sections that became wholly free. */
  function RemoveFromSection<T>(c: Collection<T>, q: nat, off: nat, pos: nat): (r: (Collection<T>, T))
    requires Valid(c) && c.size > 0
    requires q < |c.sections| && off < |c.sections[q]| && pos == q * c.sectionSize + off
    ensures Valid(r.0) && r.0.size == c.size - 1 && r.0.sectionSize == c.sectionSize
    ensures r.1 == c.sections[q][off]
    ensures pos < |Elements(c)|
    ensures r.1 == Elements(c)[pos]
    ensures Elements(r.0) == RemoveAt(Elements(c), pos)
    ensures |r.0.sections| == Arith.CeilDiv(c.size - 1, c.sectionSize)
  {
    var ss := c.sectionSize;
    LastUsed(c);
    IndexInSection(c.sections, ss, q, off);
    var secs2 := Refill(c, q, off);
    var n := c.size - 1;
    var d := Collection(secs2, ss, n);
    AllocatedCoversSize(d);
    FreeSectionCount(|secs2|, n, ss);
    var keep := |secs2| - (ss * |secs2| - n) / ss;
    DropFreeSections(secs2, ss, n);
    var secs3 := secs2[..keep];
    (Collection(secs3, ss, n), c.sections[q][off])
  }

  /** The last used section of a non-empty collection is `(size - 1) / ss`. */
  lemma LastUsedSection(n: nat, ss: nat)
    requires ss > 0 && n > 0
    ensures (n - 1) / ss == (if n % ss == 0 then n / ss - 1 else n / ss)
  {
    assert n == (n / ss) * ss + n % ss;
    if n % ss == 0 {
      Arith.DivModUnique(n - 1, ss, n / ss - 1, ss - 1);
    } else {
      Arith.DivModUnique(n - 1, ss, n / ss, n % ss - 1);
    }
  }

  /** `(ss * m - n) / ss` whole sections are free once `n` elements remain. */
  lemma FreeSectionCount(m: nat, n: nat, ss: nat)
    requires ss > 0 && n <= ss * m
    ensures Arith.CeilDiv(n, ss) <= m
    ensures (ss * m - n) / ss == m - Arith.CeilDiv(n, ss)
  {
    var k := Arith.CeilDiv(n, ss);
    if k > m {
      Arith.MulMonotone(m + 1, k, ss);
      assert false;
    }
    assert ss * m - n == (m - k) * ss + (k * ss - n);
    Arith.DivModUnique(ss * m - n, ss, m - k, k * ss - n);
  }

  /** Corrected `remove`: the element at offset `idx % ss` of its section. */
  function Remove<T>(c: Collection<T>, idx: nat): (r: Result<(Collection<T>, T), CppError>)
    requires Valid(c)
    ensures r.Failure? <==> idx >= c.size
    ensures r.Failure? ==> r.error == OutOfRange
    ensures r.Success? ==> RemovedAt(c, r.value, idx)
  {
    if idx >= c.size then Failure(OutOfRange)
    else Success(RemoveIndex(c, idx))
  }

  /** The element at position `idx` sits at offset `idx % ss` of section
      `idx / ss`. */
  function RemoveIndex<T>(c: Collection<T>, idx: nat): (r: (Collection<T>, T))
    requires Valid(c) && idx < c.size
    ensures RemovedAt(c, r, idx)
  {
    var q, o := idx / c.sectionSize, idx % c.sectionSize;
    PositionOf(c, idx, q, o);
    RemoveFromSection(c, q, o, idx)
  }

  /** `remove` as written: the section is asked to remove position
      `idx / ss` (the section number) instead of the offset `idx % ss`, so
      the element taken out is the one at `q * ss + q`, `q = idx / ss`. */
  function RemoveAsWritten<T>(c: Collection<T>, idx: nat): (r: Result<(Collection<T>, T), CppError>)
    requires Valid(c)
    ensures var q := idx / c.sectionSize;
      r.Failure? <==> (idx >= c.size || (q < |c.sections| && q >= |c.sections[q]|))
    ensures r.Success? ==> Valid(r.value.0) && r.value.0.size == c.size - 1
  {
    if idx >= c.size then Failure(OutOfRange)
    else
      SectionOfIndex(c, idx);
      RemoveSectionNumber(c, idx / c.sectionSize)
  }

  /** The section's own bounds check in the as-written `remove`: offset `q`
      must exist in section `q`. */
  function RemoveSectionNumber<T>(c: Collection<T>, q: nat): (r: Result<(Collection<T>, T), CppError>)
    requires Valid(c) && c.size > 0 && q < |c.sections|
    ensures r.Failure? <==> q >= |c.sections[q]|
    ensures r.Success? ==> RemovedAt(c, r.value, q * c.sectionSize + q)
  {
    if q >= |c.sections[q]| then Failure(OutOfRange)
    else Success(RemoveFromSection(c, q, q, q * c.sectionSize + q))
  }

  /** Removing position 1 of the two-element collection `[10, 20]` with
      section size 2 takes out and returns 10 instead of 20. */
  lemma RemoveAsWrittenTakesWrongElement()
    ensures var c: Collection<int> := Collection([[10, 20]], 2, 2);
      && RemoveAsWritten(c, 1).Success?
      && RemoveAsWritten(c, 1).value.1 == 10
      && Remove(c, 1).value.1 == 20
  {
    var c := Collection([[10, 20]], 2, 2);
    assert Valid(c);
    assert Elements(c) == [10, 20] by {
      assert c.sections[1..] == [];
    }
  }

  // ---------------------------------------------------------------------
  // fill constructor

  /** The fill loop: element `i = q * ss + o` is appended to section `q`,
      after which the write position moves to the next slot. */
  function FillLoop<T>(secs: seq<seq<T>>, i: nat, q: nat, o: nat, n: nat, ss: nat, value: T): (r: seq<seq<T>>)
    requires ss > 0 && o < ss && i == q * ss + o && i <= n && |secs| == Arith.CeilDiv(n, ss)
    requires Shape(secs, ss, q, o) && Flatten(secs) == seq(i, _ => value)
    ensures Valid(Collection(r, ss, n)) && Flatten(r) == seq(n, _ => value)
    ensures |r| == |secs|
    decreases n - i
  {
    if i == n then
      Arith.DivModUnique(n, ss, q, o);
      secs
    else
      FillTarget(q, o, n, ss);
      var next := secs[q := secs[q] + [value]];
      FillStep(secs, ss, q, o, i, value);
      if o + 1 < ss then FillLoop(next, i + 1, q, o + 1, n, ss, value)
      else FillLoop(next, i + 1, q + 1, 0, n, ss, value)
  }

  /** Appending at the write position keeps the packing and the contents. */
  lemma FillStep<T>(secs: seq<seq<T>>, ss: nat, q: nat, o: nat, i: nat, value: T)
    requires Shape(secs, ss, q, o) && q < |secs| && i == q * ss + o
    requires Flatten(secs) == seq(i, _ => value)
    ensures var next := secs[q := secs[q] + [value]];
      && Flatten(next) == seq(i + 1, _ => value)
      && (o + 1 < ss ==> Shape(next, ss, q, o + 1))
      && (o + 1 == ss ==> Shape(next, ss, q + 1, 0) && i + 1 == (q + 1) * ss)
  {
    FillStepContents(secs, q, value);
    assert seq(i, _ => value) + [value] == seq(i + 1, _ => value);
    FillStepShape(secs, ss, q, o, value);
    if o + 1 == ss {
      assert (q + 1) * ss == q * ss + ss;
    }
  }

  lemma FillStepShape<T>(secs: seq<seq<T>>, ss: nat, q: nat, o: nat, value: T)
    requires Shape(secs, ss, q, o) && q < |secs|
    ensures var next := secs[q := secs[q] + [value]];
      && (o + 1 < ss ==> Shape(next, ss, q, o + 1))
      && (o + 1 == ss ==> Shape(next, ss, q + 1, 0))
  {
  }

  lemma FillStepContents<T>(secs: seq<seq<T>>, q: nat, value: T)
    requires q < |secs|
    requires forall j :: q < j < |secs| ==> secs[j] == []
    ensures Flatten(secs[q := secs[q] + [value]]) == Flatten(secs) + [value]
  {
    var next := secs[q := secs[q] + [value]];
    FlattenAround(secs, q);
    FlattenAround(next, q);
    assert next[..q] == secs[..q] && next[q + 1..] == secs[q + 1..];
    EmptySectionsFlatten(secs[q + 1..]);
  }

  /** A write position below `n` falls in one of the ⌈n / ss⌉ sections. */
  lemma FillTarget(q: nat, o: nat, n: nat, ss: nat)
    requires ss > 0 && q * ss + o < n
    ensures q < Arith.CeilDiv(n, ss)
  {
    var k := Arith.CeilDiv(n, ss);
    if q >= k {
      Arith.MulMonotone(k, q, ss);
      assert false;
    }
  }

  /** The fill constructor: `size` copies of `value`, placed section by
      section into ⌈size / sectionSize⌉ sections. */
  function Fill<T>(size: nat, value: T, allocatorPresent: bool, sectionSize: nat): (r: Result<Collection<T>, CppError>)
    ensures r.Failure? <==> sectionSize == 0 || !allocatorPresent
    ensures r.Success? ==> (Valid(r.value) && r.value.size == size
      && Elements(r.value) == seq(size, _ => value)
      && |r.value.sections| == Arith.CeilDiv(size, sectionSize))
  {
    var c :- New<T>(size, allocatorPresent, sectionSize);
    assert Elements(c) == seq(0, _ => value);
    Success(Collection(FillLoop(c.sections, 0, 0, 0, size, sectionSize, value), sectionSize, size))
  }
}
