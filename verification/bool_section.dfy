/** `Bitmap::BoolSection`: one machine word holding 64 bools, bit `i` being
    the `i`-th of them. A word is a `bv64`; its meaning is the sequence
    `Bits(x)` of its 64 bits, lowest first. Every word operation is stated
    as an equation between such sequences. */
module BoolSections {
  import opened Seqs

  const WIDTH: nat := 64
  const ALL_ONES: bv64 := 0xFFFF_FFFF_FFFF_FFFF

  /** The bit-vector form of a bit position, counted up from 0. */
  function IxFrom(t: nat): (j: bv7)
    requires t < WIDTH
    ensures j as int == t
  {
    if t == 0 then 0 else IxFrom(t - 1) + 1
  }

  /** The shift amount a bit position stands for. */
  function Ix(t: nat): (j: bv7)
    requires t < WIDTH
    ensures j as int == t
  {
    IxFrom(t)
  }

  /** Bit `j` of `x`, addressed by a bit-vector position. */
  predicate Bit(x: bv64, j: bv7)
    requires j < 64
  {
    (x >> j) & 1 == 1
  }

  /** Bit `i` of `x` (`BoolSection::getBit`). */
  predicate GetBit(x: bv64, i: nat)
    requires i < WIDTH
  {
    Bit(x, Ix(i))
  }

  /** The 64 bools a word stands for, lowest bit first. */
  function Bits(x: bv64): (r: seq<bool>)
    ensures |r| == WIDTH
  {
    seq(WIDTH, t requires 0 <= t < WIDTH => GetBit(x, t))
  }

  // Sequences of bools and their pointwise combinations.

  function Same(n: nat, v: bool): (r: seq<bool>)
    ensures |r| == n && forall k :: 0 <= k < n ==> r[k] == v
  {
    seq(n, _ => v)
  }

  function And(a: seq<bool>, b: seq<bool>): (r: seq<bool>)
    requires |a| == |b|
    ensures |r| == |a| && forall k :: 0 <= k < |a| ==> r[k] == (a[k] && b[k])
  {
    seq(|a|, k requires 0 <= k < |a| => a[k] && b[k])
  }

  function Or(a: seq<bool>, b: seq<bool>): (r: seq<bool>)
    requires |a| == |b|
    ensures |r| == |a| && forall k :: 0 <= k < |a| ==> r[k] == (a[k] || b[k])
  {
    seq(|a|, k requires 0 <= k < |a| => a[k] || b[k])
  }

  // Bit-level facts about the masks and shifts the word operations use.

  lemma OnesBit(j: bv7)
    requires j < 64
    ensures Bit(ALL_ONES, j) && !Bit(0, j)
  {
  }

  lemma AndBit(a: bv64, b: bv64, j: bv7)
    requires j < 64
    ensures Bit(a & b, j) == (Bit(a, j) && Bit(b, j))
  {
  }

  lemma OrBit(a: bv64, b: bv64, j: bv7)
    requires j < 64
    ensures Bit(a | b, j) == (Bit(a, j) || Bit(b, j))
  {
  }

  lemma ShlBit(a: bv64, j: bv7)
    requires j < 64
    ensures Bit(a << 1, j) == (j > 0 && Bit(a, j - 1))
  {
  }

  lemma ShrBit(a: bv64, j: bv7)
    requires j < 64
    ensures Bit(a >> 1, j) == (j < 63 && Bit(a, j + 1))
  {
  }

  lemma SetOneBit(a: bv64, i: bv7, j: bv7)
    requires i < 64 && j < 64
    ensures Bit(a | (1 << i), j) == (j == i || Bit(a, j))
  {
  }

  lemma SetZeroBit(a: bv64, i: bv7, j: bv7)
    requires i < 64 && j < 64
    ensures Bit(a & !(1 << i), j) == (j != i && Bit(a, j))
  {
  }

  lemma ShiftDownBit(k: bv7, j: bv7)
    requires 0 < k <= 64 && j < 64
    ensures Bit(ALL_ONES >> k, j) == (j + k < 64)
  {
  }

  lemma LowShiftBit(i: bv7, j: bv7)
    requires 0 < i < 64 && j < 64
    ensures Bit(ALL_ONES >> (64 - i), j) == (j < i)
  {
    ShiftDownBit(64 - i, j);
  }

  lemma HighShiftBit(i: bv7, j: bv7)
    requires i < 64 && j < 64
    ensures Bit(ALL_ONES << i, j) == (j >= i)
  {
  }

  /** Position order is the same on `nat` and on `bv7`. */
  lemma IxOrder(t: nat, u: nat)
    requires t < WIDTH && u < WIDTH
    ensures (Ix(t) < Ix(u)) == (t < u) && (Ix(t) == Ix(u)) == (t == u)
  {
  }

  // The same facts as equations between bit sequences.

  lemma ConstantView()
    ensures Bits(ALL_ONES) == Same(WIDTH, true) && Bits(0) == Same(WIDTH, false)
  {
    forall t | 0 <= t < WIDTH
      ensures GetBit(ALL_ONES, t) && !GetBit(0, t)
    {
      OnesBit(Ix(t));
    }
  }

  lemma AndView(a: bv64, b: bv64, y: bv64)
    requires y == a & b
    ensures Bits(y) == And(Bits(a), Bits(b))
  {
    var l, r := Bits(y), And(Bits(a), Bits(b));
    forall t | 0 <= t < WIDTH
      ensures l[t] == r[t]
    {
      AndBit(a, b, Ix(t));
    }
  }

  lemma OrGet(a: bv64, b: bv64, t: nat)
    requires t < WIDTH
    ensures GetBit(a | b, t) == (GetBit(a, t) || GetBit(b, t))
  {
    OrBit(a, b, Ix(t));
  }

  lemma OrView(a: bv64, b: bv64, y: bv64)
    requires y == a | b
    ensures Bits(y) == Or(Bits(a), Bits(b))
  {
    forall t | 0 <= t < WIDTH
      ensures GetBit(y, t) == (GetBit(a, t) || GetBit(b, t))
    {
      OrGet(a, b, t);
    }
  }

  lemma ShlGet(a: bv64, t: nat)
    requires t < WIDTH
    ensures GetBit(a << 1, t) == (t > 0 && GetBit(a, t - 1))
  {
    ShlBit(a, Ix(t));
    if t > 0 {
      assert Ix(t - 1) as int == Ix(t) as int - 1;
    }
  }

  lemma ShlView(a: bv64, y: bv64)
    requires y == a << 1
    ensures Bits(y) == [false] + Bits(a)[..WIDTH - 1]
  {
    forall t | 0 <= t < WIDTH
      ensures GetBit(y, t) == (t > 0 && GetBit(a, t - 1))
    {
      ShlGet(a, t);
    }
  }

  lemma ShrGet(a: bv64, t: nat)
    requires t < WIDTH
    ensures GetBit(a >> 1, t) == (t < WIDTH - 1 && GetBit(a, t + 1))
  {
    ShrBit(a, Ix(t));
    if t < WIDTH - 1 {
      assert Ix(t + 1) as int == Ix(t) as int + 1;
    }
  }

  lemma ShrView(a: bv64, y: bv64)
    requires y == a >> 1
    ensures Bits(y) == Bits(a)[1..] + [false]
  {
    forall t | 0 <= t < WIDTH
      ensures GetBit(y, t) == (t < WIDTH - 1 && GetBit(a, t + 1))
    {
      ShrGet(a, t);
    }
  }

  lemma SetOneView(x: bv64, i: nat, k: bv7, y: bv64)
    requires i < WIDTH && k == Ix(i) && y == x | (1 << k)
    ensures Bits(y) == Bits(x)[i := true]
  {
    forall t | 0 <= t < WIDTH
      ensures GetBit(y, t) == (t == i || GetBit(x, t))
    {
      IxOrder(t, i);
      SetOneBit(x, k, Ix(t));
    }
  }

  lemma SetZeroView(x: bv64, i: nat, k: bv7, y: bv64)
    requires i < WIDTH && k == Ix(i) && y == x & !(1 << k)
    ensures Bits(y) == Bits(x)[i := false]
  {
    forall t | 0 <= t < WIDTH
      ensures GetBit(y, t) == (t != i && GetBit(x, t))
    {
      IxOrder(t, i);
      SetZeroBit(x, k, Ix(t));
    }
  }

  lemma LowShiftView(i: nat, k: bv7, m: bv64)
    requires 0 < i < WIDTH && k == Ix(i) && m == ALL_ONES >> (64 - k)
    ensures Bits(m) == Same(i, true) + Same(WIDTH - i, false)
  {
    forall t | 0 <= t < WIDTH
      ensures GetBit(m, t) == (t < i)
    {
      IxOrder(t, i);
      LowShiftBit(k, Ix(t));
    }
  }

  lemma HighShiftView(i: nat, k: bv7, m: bv64)
    requires i < WIDTH && k == Ix(i) && m == ALL_ONES << k
    ensures Bits(m) == Same(i, false) + Same(WIDTH - i, true)
  {
    forall t | 0 <= t < WIDTH
      ensures GetBit(m, t) == (t >= i)
    {
      IxOrder(t, i);
      HighShiftBit(k, Ix(t));
    }
  }

  // The word operations.

  /** The positions below `i`: `ALL_ONES >> (64 - i)`. For `i == 0` the
      source shifts a 64-bit value by 64, which C++ leaves undefined; the
      model takes the evidently meant empty mask. */
  function LowMask(i: nat): (m: bv64)
    requires i < WIDTH
    ensures Bits(m) == Same(i, true) + Same(WIDTH - i, false)
  {
    if i == 0 then
      ConstantView();
      0
    else
      var k := Ix(i);
      var m := ALL_ONES >> (64 - k);
      LowShiftView(i, k, m);
      m
  }

  /** The positions from `i` up: `ALL_ONES << i`. For `i == 64` (reached by
      `remove(63, ...)`) the shift is again undefined in C++; the model
      takes the empty mask. */
  function HighMask(i: nat): (m: bv64)
    requires i <= WIDTH
    ensures Bits(m) == Same(i, false) + Same(WIDTH - i, true)
  {
    if i == WIDTH then
      ConstantView();
      0
    else
      var k := Ix(i);
      var m := ALL_ONES << k;
      HighShiftView(i, k, m);
      m
  }

  /** `BoolSection(value)`: every bit equal to `value`. */
  function Filled(value: bool): (x: bv64)
    ensures Bits(x) == Same(WIDTH, value)
  {
    ConstantView();
    if value then ALL_ONES else 0
  }

  lemma ForceView(x: bv64, i: nat, v: bool, k: bv7, y: bv64)
    requires i < WIDTH && k == Ix(i)
    requires y == if v then x | (1 << k) else x & !(1 << k)
    ensures Bits(y) == Bits(x)[i := v]
  {
    if v { SetOneView(x, i, k, y); } else { SetZeroView(x, i, k, y); }
  }

  /** The store of `setBit`: `x | (1 << i)` or `x & ~(1 << i)`. */
  method Force(x: bv64, i: nat, v: bool) returns (y: bv64)
    requires i < WIDTH
    ensures Bits(y) == Bits(x)[i := v]
  {
    var k := Ix(i);
    y := if v then x | (1 << k) else x & !(1 << k);
    ForceView(x, i, v, k, y);
  }

  /** `BoolSection::setBit`: returns the former bit `i` and the word with bit
      `i` set to `v`, every other bit unchanged. */
  method SetBit(x: bv64, i: nat, v: bool) returns (prev: bool, y: bv64)
    requires i < WIDTH
    ensures prev == Bits(x)[i]
    ensures Bits(y) == Bits(x)[i := v]
  {
    prev := Bits(x)[i];
    y := Force(x, i, v);
  }

  lemma KeepBelowSeq(xs: seq<bool>, i: nat)
    requires i <= |xs|
    ensures And(xs, Same(i, true) + Same(|xs| - i, false)) == xs[..i] + Same(|xs| - i, false)
  {
  }

  /** `bitsBefore` of `insert` and `remove`: the bits of `x` below `i`. */
  method KeepBelow(x: bv64, i: nat) returns (y: bv64)
    requires i < WIDTH
    ensures Bits(y) == Bits(x)[..i] + Same(WIDTH - i, false)
  {
    var m := LowMask(i);
    y := x & m;
    AndView(x, m, y);
    KeepBelowSeq(Bits(x), i);
  }

  lemma KeepFromSeq(xs: seq<bool>, i: nat)
    requires i <= |xs|
    ensures And(Same(i, false) + Same(|xs| - i, true), xs) == Same(i, false) + xs[i..]
  {
  }

  /** The bits of `x` from `j` up, in place. */
  method KeepFrom(x: bv64, j: nat) returns (h: bv64)
    requires j <= WIDTH
    ensures Bits(h) == Same(j, false) + Bits(x)[j..]
  {
    var m := HighMask(j);
    h := m & x;
    AndView(m, x, h);
    KeepFromSeq(Bits(x), j);
  }

  lemma MoveUpSeq(xs: seq<bool>, hs: seq<bool>, ys: seq<bool>, i: nat)
    requires i < |xs| && hs == Same(i, false) + xs[i..] && ys == [false] + hs[..|hs| - 1]
    ensures ys == Same(i + 1, false) + xs[i..|xs| - 1]
  {
  }

  /** `bitsAfter` of `insert`: the bits of `x` from `i` up, moved one place
      higher. */
  method MoveUp(x: bv64, i: nat) returns (y: bv64)
    requires i < WIDTH
    ensures Bits(y) == Same(i + 1, false) + Bits(x)[i..WIDTH - 1]
  {
    var h := KeepFrom(x, i);
    y := h << 1;
    ShlView(h, y);
    MoveUpSeq(Bits(x), Bits(h), Bits(y), i);
  }

  lemma MoveDownSeq(xs: seq<bool>, hs: seq<bool>, ys: seq<bool>, i: nat)
    requires i < |xs| && hs == Same(i + 1, false) + xs[i + 1..] && ys == hs[1..] + [false]
    ensures ys == Same(i, false) + xs[i + 1..] + [false]
  {
  }

  /** `bitsAfter` of `remove`: the bits of `x` above `i`, moved one place
      lower. */
  method MoveDown(x: bv64, i: nat) returns (y: bv64)
    requires i < WIDTH
    ensures Bits(y) == Same(i, false) + Bits(x)[i + 1..] + [false]
  {
    var h := KeepFrom(x, i + 1);
    y := h >> 1;
    ShrView(h, y);
    MoveDownSeq(Bits(x), Bits(h), Bits(y), i);
  }

  lemma OpenSeq(xs: seq<bool>, i: nat)
    requires i < |xs|
    ensures Or(xs[..i] + Same(|xs| - i, false), Same(i + 1, false) + xs[i..|xs| - 1])
            == xs[..i] + [false] + xs[i..|xs| - 1]
  {
  }

  lemma PlaceSeq(ys: seq<bool>, xs: seq<bool>, i: nat, v: bool)
    requires i < |xs| && ys == xs[..i] + [false] + xs[i..|xs| - 1]
    ensures ys[i := v] == xs[..i] + [v] + xs[i..|xs| - 1]
  {
  }

  /** `BoolSection::insert`: bit `i` becomes `v`, bits `i..62` move up one
      place, and the former bit 63, pushed out, is returned. */
  method InsertBit(x: bv64, i: nat, v: bool) returns (out: bool, y: bv64)
    requires i < WIDTH
    ensures out == Bits(x)[WIDTH - 1]
    ensures Bits(y) == Bits(x)[..i] + [v] + Bits(x)[i..WIDTH - 1]
  {
    out := Bits(x)[WIDTH - 1];
    var before := KeepBelow(x, i);
    var after := MoveUp(x, i);
    var gap := before | after;
    OrView(before, after, gap);
    OpenSeq(Bits(x), i);
    PlaceSeq(Bits(gap), Bits(x), i, v);
    var _, z := SetBit(gap, i, v);
    y := z;
  }

  lemma CloseSeq(xs: seq<bool>, i: nat)
    requires i < |xs|
    ensures Or(xs[..i] + Same(|xs| - i, false), Same(i, false) + xs[i + 1..] + [false])
            == xs[..i] + xs[i + 1..] + [false]
  {
  }

  lemma TopSeq(ys: seq<bool>, xs: seq<bool>, i: nat, top: bool)
    requires i < |xs| && ys == xs[..i] + xs[i + 1..] + [false]
    ensures ys[|xs| - 1 := top] == xs[..i] + xs[i + 1..] + [top]
  {
  }

  /** `BoolSection::remove`: the former bit `i` is returned, bits `i+1..63`
      move down one place, and bit 63 becomes `top`. */
  method RemoveBit(x: bv64, i: nat, top: bool) returns (out: bool, y: bv64)
    requires i < WIDTH
    ensures out == Bits(x)[i]
    ensures Bits(y) == Bits(x)[..i] + Bits(x)[i + 1..] + [top]
  {
    out := Bits(x)[i];
    var before := KeepBelow(x, i);
    var after := MoveDown(x, i);
    var squeezed := before | after;
    OrView(before, after, squeezed);
    CloseSeq(Bits(x), i);
    TopSeq(Bits(squeezed), Bits(x), i, top);
    var _, z := SetBit(squeezed, WIDTH - 1, top);
    y := z;
  }

  /** `BoolSection::countBits`: the number of set bits among the 64. */
  method CountBits(x: bv64) returns (res: nat)
    ensures res == Count(Bits(x), true)
  {
    ghost var b := Bits(x);
    res := 0;
    var i := 0;
    while i < WIDTH
      invariant 0 <= i <= WIDTH
      invariant res == Count(b[..i], true)
    {
      CountPrefix(b, i, true);
      if GetBit(x, i) {
        res := res + 1;
      }
      i := i + 1;
    }
    assert b[..WIDTH] == b;
  }
}
