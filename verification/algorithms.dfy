/** The free search and counting helpers of the collections layer:
    `bsearchRightToInsert` (a bisection over a predicate), `bsearchRight`
    (an exact search built on it) and `countBits`, generic and specialised
    for bitmaps.  Collections are read through their element sequence. */
module Algorithms {
  import opened Wrappers
  import opened Seqs
  import BoolSections
  import Bitmaps
  import Arith

  /** `SIZE_MAX`: the default `stop` and the "not found" answer. */
  const SIZE_MAX: nat := 0xFFFF_FFFF_FFFF_FFFF

  /** The end of the searched range: `SIZE_MAX` stands for the size. */
  function StopOf(size: nat, stop: nat): nat {
    if stop == SIZE_MAX then size else stop
  }

  /** Over `[lo, hi)` the predicate holds on a prefix and fails on the rest. */
  ghost predicate Partitioned<T>(s: seq<T>, e: T, compare: (T, T) -> bool, lo: nat, hi: nat)
    requires lo <= hi <= |s|
  {
    forall i, j :: lo <= i < j < hi && !compare(s[i], e) ==> !compare(s[j], e)
  }

  /** The bisection loop of `bsearchRightToInsert`: halve `[lo, hi)` at the
      middle, moving past the middle when `compare` holds there.  On a
      partitioned range the result is the end of the prefix where `compare`
      holds. */
  function Bisect<T>(s: seq<T>, e: T, compare: (T, T) -> bool, lo: nat, hi: nat): (r: nat)
    requires lo <= hi <= |s|
    ensures lo <= r <= hi
    ensures Partitioned(s, e, compare, lo, hi) ==>
              && (forall k :: lo <= k < r ==> compare(s[k], e))
              && (forall k :: r <= k < hi ==> !compare(s[k], e))
    decreases hi - lo
  {
    if hi - lo == 0 then lo
    else
      var middle := (hi + lo) / 2;
      if compare(s[middle], e) then
        var r := Bisect(s, e, compare, middle + 1, hi);
        assert Partitioned(s, e, compare, lo, hi) ==> forall k :: lo <= k <= middle ==> compare(s[k], e);
        r
      else
        var r := Bisect(s, e, compare, lo, middle);
        assert Partitioned(s, e, compare, lo, hi) ==> forall k :: middle <= k < hi ==> !compare(s[k], e);
        r
  }

  /** `bsearchRightToInsert(collection, element, compare, start, stop)`:
      out_of_range when `start` or `stop` lies past the end, invalid_argument
      when `start > stop`, otherwise the bisection of `[start, stop)`. */
  function BsearchRightToInsert<T>(s: seq<T>, e: T, compare: (T, T) -> bool, start: nat, stop: nat)
    : (r: Result<nat, CppError>)
    ensures r.Failure? <==> start > |s| || StopOf(|s|, stop) > |s| || start > StopOf(|s|, stop)
    ensures r.Failure? ==> (r.error == OutOfRange <==> start > |s| || StopOf(|s|, stop) > |s|)
    ensures r.Failure? ==> r.error != OutOfRange ==> r.error == InvalidArgument
    ensures r.Success? ==> start <= r.value <= StopOf(|s|, stop) <= |s|
    ensures r.Success? && Partitioned(s, e, compare, start, StopOf(|s|, stop)) ==>
              && (forall k :: start <= k < r.value ==> compare(s[k], e))
              && (forall k :: r.value <= k < StopOf(|s|, stop) ==> !compare(s[k], e))
  {
    var stop' := StopOf(|s|, stop);
    if start > |s| || stop' > |s| then Failure(OutOfRange)
    else if start > stop' then Failure(InvalidArgument)
    else Success(Bisect(s, e, compare, start, stop'))
  }

  /** The default predicate of `bsearchRightToInsert`: `middle <= element`. */
  function LessEq(a: int, b: int): bool {
    a <= b
  }

  /** `s` is sorted in ascending order. */
  predicate Sorted(s: seq<int>) {
    forall i, j :: 0 <= i < j < |s| ==> s[i] <= s[j]
  }

  /** On a sorted collection `<=` holds on a prefix of every range. */
  lemma SortedPartitioned(s: seq<int>, e: int, lo: nat, hi: nat)
    requires lo <= hi <= |s| && Sorted(s)
    ensures Partitioned(s, e, LessEq, lo, hi)
  {
  }

  /** With the default predicate on a sorted range the result is the
      upper-bound insertion point: every element before it is at most
      `e`, every element from it on is greater, so inserting `e` there
      keeps the collection sorted. */
  lemma UpperBound(s: seq<int>, e: int, start: nat, stop: nat)
    requires Sorted(s) && start <= StopOf(|s|, stop) <= |s|
    ensures BsearchRightToInsert(s, e, LessEq, start, stop).Success?
    ensures var r := BsearchRightToInsert(s, e, LessEq, start, stop).value;
            && (forall k :: start <= k < r ==> s[k] <= e)
            && (forall k :: r <= k < StopOf(|s|, stop) ==> s[k] > e)
  {
    SortedPartitioned(s, e, start, StopOf(|s|, stop));
  }

  /** The default three-way comparator of `bsearchRight`. */
  function ThreeWay(a: int, b: int): (r: int)
    ensures r == 0 <==> a == b
    ensures r < 0 <==> a < b
    ensures -1 <= r <= 1
  {
    if a == b then 0 else if a < b then -1 else 1
  }

  /** Swapping the operands of the comparator flips its sign. */
  lemma ThreeWayAntisymmetric(a: int, b: int)
    ensures ThreeWay(a, b) == -ThreeWay(b, a)
  {
  }

  /** The predicate `bsearchRight` hands to the bisection as written:
      `0 <= compare(middle, element)`. */
  function AtLeast<T>(compare: (T, T) -> int): (T, T) -> bool {
    (a, b) => 0 <= compare(a, b)
  }

  /** The predicate evidently intended: `compare(middle, element) <= 0`. */
  function AtMost<T>(compare: (T, T) -> int): (T, T) -> bool {
    (a, b) => compare(a, b) <= 0
  }

  /** `bsearchRight` as written: the predicate handed to the bisection is
      `0 <= compare(middle, element)`, and the candidate is the element just
      before the insertion point, even when that point is `start` itself. */
  function BsearchRightAsWritten<T>(s: seq<T>, e: T, compare: (T, T) -> int, start: nat, stop: nat)
    : (r: Result<nat, CppError>)
    ensures r.Failure? <==> start > |s| || StopOf(|s|, stop) > |s| || start > StopOf(|s|, stop)
    ensures r.Success? && r.value != SIZE_MAX ==> r.value < |s| && compare(s[r.value], e) == 0
  {
    var idx :- BsearchRightToInsert(s, e, AtLeast(compare), start, stop);
    if idx == 0 then Success(SIZE_MAX)
    else if compare(s[idx - 1], e) == 0 then Success(idx - 1)
    else Success(SIZE_MAX)
  }

  /** The reversed predicate makes the search miss an element that is
      there: 2 occurs in [1, 2, 3] at index 1, yet "not found" comes back. */
  lemma BsearchRightMissesPresent()
    ensures 2 in [1, 2, 3]
    ensures BsearchRightAsWritten([1, 2, 3], 2, ThreeWay, 0, SIZE_MAX) == Success(SIZE_MAX)
  {
    var s := [1, 2, 3];
    var c := AtLeast(ThreeWay);
    assert c(s[1], 2) == (0 <= ThreeWay(s[1], 2));
    assert c(s[2], 2) == (0 <= ThreeWay(s[2], 2));
    assert Bisect(s, 2, c, 2, 3) == 3 by {
      assert Bisect(s, 2, c, 3, 3) == 3;
    }
    assert Bisect(s, 2, c, 0, 3) == 3;
  }

  /** The candidate before `start` escapes the range: searching the empty
      range [1, 1) of [2, 2] finds index 0. */
  lemma BsearchRightLeavesRange()
    ensures BsearchRightAsWritten([2, 2], 2, ThreeWay, 1, 1) == Success(0)
  {
    var c := AtLeast(ThreeWay);
    assert Bisect([2, 2], 2, c, 1, 1) == 1;
  }

  /** `bsearchRight` as intended: the bisection looks for the end of the
      elements that compare at most equal, and the candidate before that
      point is taken only when it lies in the range. */
  function BsearchRight<T>(s: seq<T>, e: T, compare: (T, T) -> int, start: nat, stop: nat)
    : (r: Result<nat, CppError>)
    ensures r.Failure? <==> start > |s| || StopOf(|s|, stop) > |s| || start > StopOf(|s|, stop)
    ensures r.Success? && r.value != SIZE_MAX ==>
              start <= r.value < StopOf(|s|, stop) && compare(s[r.value], e) == 0
  {
    var idx :- BsearchRightToInsert(s, e, AtMost(compare), start, stop);
    if idx == start then Success(SIZE_MAX)
    else if compare(s[idx - 1], e) == 0 then Success(idx - 1)
    else Success(SIZE_MAX)
  }

  /** On a sorted collection "compares at most equal" holds on a prefix of
      every range. */
  lemma AtMostPartitioned(s: seq<int>, e: int, lo: nat, hi: nat)
    requires lo <= hi <= |s| && Sorted(s)
    ensures forall k :: 0 <= k < |s| ==> AtMost(ThreeWay)(s[k], e) == (s[k] <= e)
    ensures Partitioned(s, e, AtMost(ThreeWay), lo, hi)
  {
    var c := AtMost(ThreeWay);
    forall k | 0 <= k < |s|
      ensures c(s[k], e) == (s[k] <= e)
    {
      assert c(s[k], e) == (ThreeWay(s[k], e) <= 0);
    }
  }

  /** On a sorted range with the default comparator the intended search
      finds `e` exactly when it occurs in `[start, stop)`, and then at its
      last occurrence. */
  lemma BsearchRightFinds(s: seq<int>, e: int, start: nat, stop: nat)
    requires Sorted(s) && start <= StopOf(|s|, stop) <= |s| < SIZE_MAX
    ensures BsearchRight(s, e, ThreeWay, start, stop).Success?
    ensures var r := BsearchRight(s, e, ThreeWay, start, stop).value;
            && (r != SIZE_MAX <==> e in s[start..StopOf(|s|, stop)])
            && (r != SIZE_MAX ==> s[r] == e && forall k :: r < k < StopOf(|s|, stop) ==> s[k] != e)
  {
    var stop' := StopOf(|s|, stop);
    AtMostPartitioned(s, e, start, stop');
    var idx := Bisect(s, e, AtMost(ThreeWay), start, stop');
    LastAtMost(s, e, start, stop', idx);
  }

  /** In a sorted range split at `idx` into elements at most `e` and
      elements above it, `e` occurs exactly when the element just before
      `idx` is `e`. */
  lemma LastAtMost(s: seq<int>, e: int, start: nat, stop: nat, idx: nat)
    requires Sorted(s) && start <= idx <= stop <= |s|
    requires forall k :: start <= k < idx ==> s[k] <= e
    requires forall k :: idx <= k < stop ==> s[k] > e
    ensures e in s[start..stop] <==> start < idx && s[idx - 1] == e
  {
    if e in s[start..stop] {
      var k :| start <= k < stop && s[k] == e;
      assert s[k] <= s[idx - 1];
    }
    if start < idx && s[idx - 1] == e {
      assert s[start..stop][idx - 1 - start] == e;
    }
  }

  /** The generic `countBits`: how many elements equal `value`. */
  method CountBits(s: seq<bool>, value: bool) returns (res: nat)
    ensures res == Count(s, value)
  {
    res := 0;
    var i := 0;
    while i < |s|
      invariant i <= |s|
      invariant res == Count(s[..i], value)
    {
      CountPrefix(s, i, value);
      if s[i] == value {
        res := res + 1;
      }
      i := i + 1;
    }
    assert s[..|s|] == s;
  }

  /** The set bits of the first `i + 1` words are those of the first `i`
      plus those of word `i`. */
  lemma WordCount(secs: seq<bv64>, i: nat)
    requires i < |secs|
    ensures Count(Bitmaps.AllBits(secs)[..64 * (i + 1)], true)
            == Count(Bitmaps.AllBits(secs)[..64 * i], true) + Count(BoolSections.Bits(secs[i]), true)
  {
    var all := Bitmaps.AllBits(secs);
    Bitmaps.WordAt(secs, i);
    assert all[..64 * (i + 1)] == all[..64 * i] + all[64 * i..64 * i + 64];
    CountConcat(all[..64 * i], all[64 * i..64 * i + 64], true);
  }

  /** The full words of the bitmap, counted a word at a time. */
  method CountFullWords(b: Bitmaps.Bitmap, full: nat) returns (res: nat)
    requires full <= |b.sections|
    ensures res == Count(Bitmaps.AllBits(b.sections)[..64 * full], true)
  {
    res := 0;
    var i := 0;
    while i < full
      invariant i <= full
      invariant res == Count(Bitmaps.AllBits(b.sections)[..64 * i], true)
    {
      var c := BoolSections.CountBits(b.sections[i]);
      WordCount(b.sections, i);
      res := res + c;
      i := i + 1;
    }
  }

  /** The bits of the bitmap from `k` on, read one by one through
      `operator[]` and added to the set bits counted before `k`. */
  method CountRest(b: Bitmaps.Bitmap, k: nat, counted: nat) returns (res: nat)
    requires Bitmaps.Valid(b) && k <= b.size
    requires counted == Count(Bitmaps.Elements(b)[..k], true)
    ensures res == Count(Bitmaps.Elements(b), true)
  {
    ghost var s := Bitmaps.Elements(b);
    res := counted;
    var i := k;
    while i < b.size
      invariant i <= b.size
      invariant res == Count(s[..i], true)
    {
      var bit := Bitmaps.Get(b, i);
      CountPrefix(s, i, true);
      if bit.value {
        res := res + 1;
      }
      i := i + 1;
    }
    assert s[..b.size] == s;
  }

  /** `countBits` specialised for bitmaps: popcounts of the full words, then
      the remaining bits one by one; for `false` the count of set bits is
      subtracted from the size. */
  method CountBitmapBits(b: Bitmaps.Bitmap, value: bool) returns (res: nat)
    requires Bitmaps.Valid(b)
    ensures res == Count(Bitmaps.Elements(b), value)
  {
    var full := b.size / 64;
    Arith.DivMod(b.size, 64);
    var k := 64 * full;
    var counted := CountFullWords(b, full);
    assert Bitmaps.AllBits(b.sections)[..k] == Bitmaps.Elements(b)[..k];
    res := CountRest(b, k, counted);
    if !value {
      CountComplement(Bitmaps.Elements(b));
      res := b.size - res;
    }
  }
}
