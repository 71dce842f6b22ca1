/** `Bitmap`: an indexable collection of bools packed 64 to a word.  Bool `p`
    is bit `p % 64` of word `p / 64`; bits at and above `size` are unused and
    may hold anything.  The collection of words (a `SectionedCollection` of
    `BoolSection`s, or one handed in by the caller) is modelled as the
    sequence of its words. */
module Bitmaps {
  import opened Wrappers
  import opened Seqs
  import opened BoolSections
  import Arith

  datatype Bitmap = Bitmap(sections: seq<bv64>, size: nat)

  // ---------------------------------------------------------------------
  // The bits of a sequence of words

  /** Every bit of `secs`, word by word, lowest bit first. */
  function AllBits(secs: seq<bv64>): (r: seq<bool>)
    ensures |r| == 64 * |secs|
  {
    if |secs| == 0 then [] else AllBits(secs[..|secs| - 1]) + Bits(secs[|secs| - 1])
  }

  /** Bool `p` is bit `p % 64` of word `p / 64`. */
  lemma {:induction false} BitAt(secs: seq<bv64>, p: nat)
    requires p < 64 * |secs|
    ensures p / 64 < |secs| && AllBits(secs)[p] == Bits(secs[p / 64])[p % 64]
    decreases |secs|
  {
    var init := secs[..|secs| - 1];
    var q, o := p / 64, p % 64;
    Arith.DivMod(p, 64);
    if p < 64 * |init| {
      BitAt(init, p);
      assert init[q] == secs[q];
    } else {
      Arith.DivModUnique(p, 64, |init|, p - 64 * |init|);
    }
  }

  /** Word `i` covers bits `64 * i` up to `64 * i + 63`. */
  lemma WordAt(secs: seq<bv64>, i: nat)
    requires i < |secs|
    ensures AllBits(secs)[64 * i..64 * i + 64] == Bits(secs[i])
  {
    var all, word := AllBits(secs), Bits(secs[i]);
    forall k | 0 <= k < 64
      ensures all[64 * i + k] == word[k]
    {
      var p := 64 * i + k;
      BitAt(secs, p);
      Arith.DivModUnique(p, 64, i, k);
      assert p / 64 == i && p % 64 == k;
    }
    var slice := all[64 * i..64 * i + 64];
    assert forall k :: 0 <= k < 64 ==> slice[k] == all[64 * i + k];
    assert slice == word;
  }

  /** Replacing word `i` replaces exactly its 64 bits. */
  lemma Splice(secs: seq<bv64>, i: nat, w: bv64)
    requires i < |secs|
    ensures AllBits(secs[i := w]) == AllBits(secs)[..64 * i] + Bits(w) + AllBits(secs)[64 * i + 64..]
  {
    var lhs := AllBits(secs[i := w]);
    var rhs := AllBits(secs)[..64 * i] + Bits(w) + AllBits(secs)[64 * i + 64..];
    forall p | 0 <= p < |lhs|
      ensures lhs[p] == rhs[p]
    {
      var j, k := p / 64, p % 64;
      BitAt(secs, p);
      BitAt(secs[i := w], p);
      Arith.DivMod(p, 64);
      if p < 64 * i {
        assert j < i;
      } else if p < 64 * i + 64 {
        Arith.DivModUnique(p, 64, i, p - 64 * i);
      } else {
        assert j > i;
      }
    }
  }

  /** The first `k` words hold the first `64 * k` bits. */
  lemma PrefixWords(secs: seq<bv64>, k: nat)
    requires k <= |secs|
    ensures AllBits(secs[..k]) == AllBits(secs)[..64 * k]
  {
    var lhs, all := AllBits(secs[..k]), AllBits(secs);
    forall p | 0 <= p < |lhs|
      ensures lhs[p] == all[p]
    {
      BitAt(secs, p);
      BitAt(secs[..k], p);
      assert secs[..k][p / 64] == secs[p / 64];
    }
    assert lhs == all[..64 * k];
  }

  /** An appended word adds its 64 bits at the end. */
  lemma AppendWord(secs: seq<bv64>, w: bv64)
    ensures AllBits(secs + [w]) == AllBits(secs) + Bits(w)
  {
    assert (secs + [w])[..|secs|] == secs;
  }

  // ---------------------------------------------------------------------
  // The collection

  /** The words hold at least `size` bits. */
  predicate Valid(b: Bitmap) {
    b.size <= 64 * |b.sections|
  }

  /** The bools the bitmap represents. */
  function Elements(b: Bitmap): (r: seq<bool>)
    requires Valid(b)
    ensures |r| == b.size
  {
    AllBits(b.sections)[..b.size]
  }

  // ---------------------------------------------------------------------
  // Construction

  /** `Bitmap(size, value)`: ⌈size / 64⌉ words with every bit equal to
      `value`. */
  function New(size: nat, value: bool): (b: Bitmap)
    ensures Valid(b) && b.size == size
    ensures |b.sections| == Arith.CeilDiv(size, 64)
    ensures Elements(b) == Same(size, value)
  {
    var w := Filled(value);
    var secs := seq(Arith.CeilDiv(size, 64), _ => w);
    var all := AllBits(secs);
    forall p | 0 <= p < 64 * |secs|
      ensures all[p] == value
    {
      BitAt(secs, p);
    }
    Bitmap(secs, size)
  }

  /** `Bitmap(boolSections, size)`: adopts the given words; refuses them when
      they hold fewer than `size` bits. */
  function FromSections(secs: seq<bv64>, size: nat): (r: Result<Bitmap, CppError>)
    ensures r.Failure? <==> |secs| * 64 < size
    ensures r.Failure? ==> r.error == InvalidArgument
    ensures r.Success? ==> && Valid(r.value) && r.value.sections == secs
                           && Elements(r.value) == AllBits(secs)[..size]
  {
    if |secs| * 64 < size then Failure(InvalidArgument) else Success(Bitmap(secs, size))
  }

  // ---------------------------------------------------------------------
  // Access

  /** Reading `operator[](idx)`: bit `idx % 64` of word `idx / 64`, read
      through `getBit` rather than through `BoolReference`, whose byte
      arithmetic does not match this layout. */
  function Get(b: Bitmap, idx: nat): (r: Result<bool, CppError>)
    requires Valid(b)
    ensures r.Failure? <==> idx >= b.size
    ensures r.Failure? ==> r.error == OutOfRange
    ensures r.Success? ==> r.value == Elements(b)[idx]
  {
    if idx >= b.size then Failure(OutOfRange)
    else
      BitAt(b.sections, idx);
      Success(GetBit(b.sections[idx / 64], idx % 64))
  }

  /** `setBit` on word `q`: bool `64 * q + o` becomes `v`. */
  method StoreBit(secs: seq<bv64>, q: nat, o: nat, v: bool) returns (next: seq<bv64>, prev: bool)
    requires q < |secs| && o < 64
    ensures |next| == |secs|
    ensures prev == AllBits(secs)[64 * q + o]
    ensures AllBits(next) == AllBits(secs)[64 * q + o := v]
  {
    var w;
    prev, w := SetBit(secs[q], o, v);
    WordAt(secs, q);
    Splice(secs, q, w);
    next := secs[q := w];
    SpliceUpdate(AllBits(secs), AllBits(next), q, o, v);
  }

  lemma SpliceUpdate(s: seq<bool>, s': seq<bool>, q: nat, o: nat, v: bool)
    requires o < 64 && 64 * q + 64 <= |s|
    requires s' == s[..64 * q] + s[64 * q..64 * q + 64][o := v] + s[64 * q + 64..]
    ensures s' == s[64 * q + o := v]
  {
  }

  /** `replace`: stores `v` at `idx` through `setBit` and returns the bool it
      replaced. */
  method Replace(b: Bitmap, idx: nat, v: bool) returns (r: Result<(Bitmap, bool), CppError>)
    requires Valid(b)
    ensures r.Failure? <==> idx >= b.size
    ensures r.Failure? ==> r.error == OutOfRange
    ensures r.Success? ==> && Valid(r.value.0) && r.value.0.size == b.size
                           && |r.value.0.sections| == |b.sections|
                           && Elements(r.value.0) == Elements(b)[idx := v]
                           && r.value.1 == Elements(b)[idx]
  {
    if idx >= b.size {
      return Failure(OutOfRange);
    }
    Arith.DivMod(idx, 64);
    var secs, prev := StoreBit(b.sections, idx / 64, idx % 64, v);
    assert AllBits(secs)[..b.size] == AllBits(b.sections)[..b.size][idx := v];
    r := Success((Bitmap(secs, b.size), prev));
  }

  // ---------------------------------------------------------------------
  // insert

  /** The word receiving the new bool: its bits after the first `64 * q`
      bits are the inserted sequence's. */
  lemma InsertFirstWord(s: seq<bool>, idx: nat, v: bool, q: nat, o: nat, w: seq<bool>)
    requires o < 64 && idx == 64 * q + o && 64 * q + 64 <= |s|
    requires w == s[64 * q..64 * q + 64][..o] + [v] + s[64 * q..64 * q + 64][o..63]
    ensures s[..64 * q] + w == (s[..idx] + [v] + s[idx..])[..64 * q + 64]
  {
    var t := s[..idx] + [v] + s[idx..];
    var word := s[64 * q..64 * q + 64];
    assert word[..o] == s[64 * q..idx];
    assert forall k :: 0 <= k < 63 - o ==> word[o..63][k] == s[idx..64 * q + 63][k];
    assert word[o..63] == s[idx..64 * q + 63];
    assert s[..64 * q] + s[64 * q..idx] == s[..idx];
    assert s[..64 * q] + w == s[..idx] + [v] + s[idx..64 * q + 63];
    assert t[..64 * q + 64] == s[..idx] + [v] + s[idx..64 * q + 63];
  }

  /** A later word, shifted up by one, takes the bit pushed out of the word
      before it. */
  lemma InsertNextWord(s: seq<bool>, idx: nat, v: bool, i: nat, w: seq<bool>, prefix: seq<bool>)
    requires 0 < i && idx < 64 * i && 64 * i + 64 <= |s|
    requires w == [s[64 * i - 1]] + s[64 * i..64 * i + 64][..63]
    requires prefix == (s[..idx] + [v] + s[idx..])[..64 * i]
    ensures prefix + w == (s[..idx] + [v] + s[idx..])[..64 * i + 64]
  {
    var t := s[..idx] + [v] + s[idx..];
    assert t[64 * i..64 * i + 64] == w;
    assert t[..64 * i + 64] == t[..64 * i] + t[64 * i..64 * i + 64];
  }

  /** One step of the cascade: word `i` takes the carried bit into bit 0 and
      pushes out its top bit; the bits before word `i + 1` are then final. */
  method CarryInto(secs: seq<bv64>, ghost start: seq<bv64>, i: nat, ghost idx: nat,
                   ghost v: bool, ghost ins: seq<bool>, leaved: bool) returns (next: seq<bv64>, carry: bool)
    requires |secs| == |start| && 0 < i < |secs| && idx < 64 * i
    requires ins == AllBits(start)[..idx] + [v] + AllBits(start)[idx..]
    requires forall j :: i <= j < |secs| ==> secs[j] == start[j]
    requires leaved == AllBits(start)[64 * i - 1]
    requires AllBits(secs)[..64 * i] == ins[..64 * i]
    ensures |next| == |secs| && idx < 64 * (i + 1)
    ensures forall j :: i + 1 <= j < |secs| ==> next[j] == start[j]
    ensures carry == AllBits(start)[64 * (i + 1) - 1]
    ensures AllBits(next)[..64 * (i + 1)] == ins[..64 * (i + 1)]
  {
    var w;
    carry, w := InsertBit(secs[i], 0, leaved);
    BitOfWord(start, i, 63, 64 * (i + 1) - 1);
    CarriedWord(secs, start, i, idx, v, w);
    next := secs[i := w];
  }

  /** Word `i` opened at bit 0 for the carried bit and spliced back extends
      the inserted prefix by one word. */
  lemma CarriedWord(secs: seq<bv64>, start: seq<bv64>, i: nat, idx: nat, v: bool, w: bv64)
    requires |secs| == |start| && 0 < i < |secs| && idx < 64 * i
    requires secs[i] == start[i]
    requires AllBits(secs)[..64 * i]
             == (AllBits(start)[..idx] + [v] + AllBits(start)[idx..])[..64 * i]
    requires Bits(w) == Bits(start[i])[..0] + [AllBits(start)[64 * i - 1]]
                        + Bits(start[i])[0..WIDTH - 1]
    ensures AllBits(secs[i := w])[..64 * (i + 1)]
            == (AllBits(start)[..idx] + [v] + AllBits(start)[idx..])[..64 * (i + 1)]
  {
    var s := AllBits(start);
    WordAt(start, i);
    Splice(secs, i, w);
    assert Bits(w) == [s[64 * i - 1]] + s[64 * i..64 * i + 64][..63];
    InsertNextWord(s, idx, v, i, Bits(w), AllBits(secs)[..64 * i]);
  }

  /** The word receiving the new bool: bit `o` of word `q` becomes `v` and
      its top bit is pushed out. */
  method InsertInWord(start: seq<bv64>, q: nat, o: nat, ghost idx: nat, v: bool)
    returns (next: seq<bv64>, carry: bool)
    requires q < |start| && o < 64 && idx == 64 * q + o
    ensures |next| == |start| && forall j :: 0 <= j < |start| && j != q ==> next[j] == start[j]
    ensures carry == AllBits(start)[64 * (q + 1) - 1]
    ensures AllBits(next)[..64 * (q + 1)]
            == (AllBits(start)[..idx] + [v] + AllBits(start)[idx..])[..64 * (q + 1)]
  {
    var w;
    carry, w := InsertBit(start[q], o, v);
    BitOfWord(start, q, 63, 64 * (q + 1) - 1);
    OpenedWord(start, q, o, idx, v, w);
    next := start[q := w];
  }

  /** Word `q` with `v` inserted at bit `o` and spliced back gives the
      inserted sequence up to the end of that word. */
  lemma OpenedWord(start: seq<bv64>, q: nat, o: nat, idx: nat, v: bool, w: bv64)
    requires q < |start| && o < 64 && idx == 64 * q + o
    requires Bits(w) == Bits(start[q])[..o] + [v] + Bits(start[q])[o..WIDTH - 1]
    ensures AllBits(start[q := w])[..64 * (q + 1)]
            == (AllBits(start)[..idx] + [v] + AllBits(start)[idx..])[..64 * (q + 1)]
  {
    var s := AllBits(start);
    WordAt(start, q);
    Splice(start, q, w);
    InsertFirstWord(s, idx, v, q, o, Bits(w));
  }

  /** Sequences that agree on a prefix agree on every shorter prefix. */
  lemma ShorterPrefix<T>(a: seq<T>, b: seq<T>, k: nat, m: nat)
    requires m <= k <= |a| && k <= |b| && a[..k] == b[..k]
    ensures a[..m] == b[..m]
  {
    assert a[..m] == a[..k][..m];
    assert b[..m] == b[..k][..m];
  }

  /** The first `n + 1` bits of the inserted sequence. */
  lemma InsertedPrefix(s: seq<bool>, idx: nat, v: bool, n: nat)
    requires idx <= n < |s|
    ensures (s[..idx] + [v] + s[idx..])[..n + 1] == InsertAt(s[..n], idx, v)
  {
  }

  /** The cascade of `insert`: from word `i` up to (not including) word
      `used`, each word takes the bit pushed out of the word before it. */
  method CarryFrom(secs: seq<bv64>, ghost start: seq<bv64>, i: nat, used: nat, ghost idx: nat,
                   ghost v: bool, ghost ins: seq<bool>, leaved: bool) returns (next: seq<bv64>)
    requires |secs| == |start| && 0 < i <= used <= |start| && idx < 64 * i
    requires ins == AllBits(start)[..idx] + [v] + AllBits(start)[idx..]
    requires forall j :: i <= j < |secs| ==> secs[j] == start[j]
    requires leaved == AllBits(start)[64 * i - 1]
    requires AllBits(secs)[..64 * i] == ins[..64 * i]
    ensures |next| == |start|
    ensures AllBits(next)[..64 * used] == ins[..64 * used]
    decreases used - i
  {
    if i == used {
      return secs;
    }
    var stepped, carry := CarryInto(secs, start, i, idx, v, ins, leaved);
    next := CarryFrom(stepped, start, i + 1, used, idx, v, ins, carry);
  }

  /** `insert` after the room check: inserts into word `idx / 64`, then
      carries the pushed-out top bit into bit 0 of each following used word
      (the used words being the first `n / 64 + 1`). */
  method InsertInto(start: seq<bv64>, n: nat, idx: nat, v: bool) returns (secs: seq<bv64>)
    requires idx <= n < 64 * |start|
    ensures |secs| == |start|
    ensures AllBits(secs)[..n + 1] == InsertAt(AllBits(start)[..n], idx, v)
  {
    ghost var s := AllBits(start);
    var q, o := idx / 64, idx % 64;
    Arith.DivMod(idx, 64);
    var used := n / 64 + 1;
    Arith.DivMod(n, 64);
    ghost var ins := s[..idx] + [v] + s[idx..];
    var first, leaved := InsertInWord(start, q, o, idx, v);
    secs := CarryFrom(first, start, q + 1, used, idx, v, ins, leaved);
    ShorterPrefix(AllBits(secs), s[..idx] + [v] + s[idx..], 64 * used, n + 1);
    InsertedPrefix(s, idx, v, n);
  }

  /** `insert`: refuses an index past the end, appends a zero word when every
      word is full, then inserts. */
  method Insert(b: Bitmap, idx: nat, v: bool) returns (r: Result<Bitmap, CppError>)
    requires Valid(b)
    ensures r.Failure? <==> idx > b.size
    ensures r.Failure? ==> r.error == OutOfRange
    ensures r.Success? ==> && Valid(r.value) && r.value.size == b.size + 1
                           && Elements(r.value) == InsertAt(Elements(b), idx, v)
                           && |r.value.sections|
                              == (if 64 * |b.sections| == b.size then |b.sections| + 1
                                  else |b.sections|)
  {
    if idx > b.size {
      return Failure(OutOfRange);
    }
    var start := b.sections;
    if 64 * |start| == b.size {
      start := start + [0];
      AppendWord(b.sections, 0);
    }
    assert AllBits(start)[..b.size] == Elements(b);
    var secs := InsertInto(start, b.size, idx, v);
    r := Success(Bitmap(secs, b.size + 1));
  }

  // ---------------------------------------------------------------------
  // remove

  /** The number of words holding the first `n` bools: ⌈n / 64⌉. */
  function UsedWords(n: nat): (u: nat)
    ensures n <= 64 * u < n + 64
  {
    Arith.DivMod(n, 64);
    n / 64 + (if n % 64 != 0 then 1 else 0)
  }

  /** Word `i`, shifted down by one, takes into its top bit the bit pulled
      out of the word after it. */
  lemma PullStep(a: seq<bool>, a': seq<bool>, e: seq<bool>, i: nat, used: nat, w: seq<bool>)
    requires i < used && 64 * used <= |a| && |e| == 64 * used + 1
    requires a' == a[..64 * i] + w + a[64 * i + 64..]
    requires w == e[64 * i + 1..64 * i + 65]
    requires a[64 * (i + 1)..64 * used] == e[64 * (i + 1) + 1..64 * used + 1]
    ensures a'[64 * i..64 * used] == e[64 * i + 1..64 * used + 1]
  {
    assert a'[64 * i..64 * used] == w + a[64 * (i + 1)..64 * used];
  }

  lemma PullWord(s: seq<bool>, e: seq<bool>, i: nat, used: nat, word: seq<bool>, w: seq<bool>,
                 leaved: bool)
    requires i < used && 64 * used <= |s| && e == s[..64 * used] + [false]
    requires word == s[64 * i..64 * i + 64] && leaved == e[64 * (i + 1)]
    requires w == word[..0] + word[1..] + [leaved]
    ensures w == e[64 * i + 1..64 * i + 65]
  {
  }

  /** One step of the corrected cascade of `remove`, from the last used word
      down: word `i` loses bit 0 and takes the carried bit as its top bit. */
  method PullInto(secs: seq<bv64>, ghost start: seq<bv64>, i: nat, used: nat, leaved: bool)
    returns (next: seq<bv64>, carry: bool)
    requires |secs| == |start| && i < used <= |secs|
    requires secs[i] == start[i]
    requires leaved == (AllBits(start)[..64 * used] + [false])[64 * (i + 1)]
    requires AllBits(secs)[64 * (i + 1)..64 * used]
             == (AllBits(start)[..64 * used] + [false])[64 * (i + 1) + 1..64 * used + 1]
    ensures |next| == |secs| && forall j :: 0 <= j < |secs| && j != i ==> next[j] == secs[j]
    ensures carry == (AllBits(start)[..64 * used] + [false])[64 * i]
    ensures AllBits(next)[64 * i..64 * used]
            == (AllBits(start)[..64 * used] + [false])[64 * i + 1..64 * used + 1]
  {
    var w;
    carry, w := RemoveBit(secs[i], 0, leaved);
    BitOfWord(start, i, 0, 64 * i);
    PulledWord(secs, start, i, used, w);
    next := secs[i := w];
  }

  /** Word `i` without bit 0, topped with the bit pulled out of word
      `i + 1` and spliced back, extends the shifted-down run by one word. */
  lemma PulledWord(secs: seq<bv64>, start: seq<bv64>, i: nat, used: nat, w: bv64)
    requires |secs| == |start| && i < used <= |secs|
    requires secs[i] == start[i]
    requires AllBits(secs)[64 * (i + 1)..64 * used]
             == (AllBits(start)[..64 * used] + [false])[64 * (i + 1) + 1..64 * used + 1]
    requires Bits(w) == Bits(start[i])[..0] + Bits(start[i])[1..]
                        + [(AllBits(start)[..64 * used] + [false])[64 * (i + 1)]]
    ensures AllBits(secs[i := w])[64 * i..64 * used]
            == (AllBits(start)[..64 * used] + [false])[64 * i + 1..64 * used + 1]
  {
    var s := AllBits(start);
    var e := s[..64 * used] + [false];
    WordAt(start, i);
    PullWord(s, e, i, used, Bits(start[i]), Bits(w), e[64 * (i + 1)]);
    Splice(secs, i, w);
    PullStep(AllBits(secs), AllBits(secs[i := w]), e, i, used, Bits(w));
  }

  /** The word losing the removed bool, after the cascade: the bits before
      it are untouched and the rest is the shifted-down sequence. */
  lemma RemoveFirstWord(s: seq<bool>, a: seq<bool>, a': seq<bool>, e: seq<bool>, q: nat, o: nat,
                        used: nat, w: seq<bool>)
    requires o < 64 && q < used && 64 * used <= |s| && |a| == |s|
    requires e == s[..64 * used] + [false]
    requires a[..64 * q + 64] == s[..64 * q + 64]
    requires a[64 * (q + 1)..64 * used] == e[64 * (q + 1) + 1..64 * used + 1]
    requires w == s[64 * q..64 * q + 64][..o] + s[64 * q..64 * q + 64][o + 1..] + [e[64 * (q + 1)]]
    requires a' == a[..64 * q] + w + a[64 * q + 64..]
    ensures a'[..64 * used] == s[..64 * q + o] + e[64 * q + o + 1..]
  {
    assert a'[..64 * used] == a[..64 * q] + w + a[64 * (q + 1)..64 * used];
    assert a[..64 * q] == s[..64 * q];
  }

  /** Bit `64 * q + o` of a sequence of words is bit `o` of word `q`. */
  lemma BitOfWord(secs: seq<bv64>, q: nat, o: nat, idx: nat)
    requires q < |secs| && o < 64 && idx == 64 * q + o
    ensures AllBits(secs)[idx] == Bits(secs[q])[o]
  {
    WordAt(secs, q);
    assert AllBits(secs)[64 * q..64 * q + 64][o] == AllBits(secs)[idx];
  }

  /** Word `q` without bit `o`, topped with the carried bit and spliced
      back after the cascade, completes the shifted-down sequence. */
  lemma DroppedWord(secs: seq<bv64>, start: seq<bv64>, q: nat, o: nat, idx: nat, used: nat, w: bv64)
    requires |secs| == |start| && q < used <= |secs| && o < 64 && idx == 64 * q + o
    requires forall j :: 0 <= j <= q ==> secs[j] == start[j]
    requires AllBits(secs)[64 * (q + 1)..64 * used]
             == (AllBits(start)[..64 * used] + [false])[64 * (q + 1) + 1..64 * used + 1]
    requires Bits(w) == Bits(start[q])[..o] + Bits(start[q])[o + 1..]
                        + [(AllBits(start)[..64 * used] + [false])[64 * (q + 1)]]
    ensures AllBits(secs[q := w])[..64 * used]
            == AllBits(start)[..idx] + (AllBits(start)[..64 * used] + [false])[idx + 1..]
  {
    var s := AllBits(start);
    var e := s[..64 * used] + [false];
    WordAt(start, q);
    PrefixWords(secs, q + 1);
    PrefixWords(start, q + 1);
    assert secs[..q + 1] == start[..q + 1];
    Splice(secs, q, w);
    RemoveFirstWord(s, AllBits(secs), AllBits(secs[q := w]), e, q, o, used, Bits(w));
  }

  /** The last step of `remove`: word `q` loses bit `o` and takes the
      carried bit as its top bit. */
  method DropFromWord(secs: seq<bv64>, ghost start: seq<bv64>, q: nat, o: nat, ghost idx: nat,
                      used: nat, leaved: bool) returns (next: seq<bv64>, out: bool)
    requires |secs| == |start| && q < used <= |secs| && o < 64 && idx == 64 * q + o
    requires forall j :: 0 <= j <= q ==> secs[j] == start[j]
    requires leaved == (AllBits(start)[..64 * used] + [false])[64 * (q + 1)]
    requires AllBits(secs)[64 * (q + 1)..64 * used]
             == (AllBits(start)[..64 * used] + [false])[64 * (q + 1) + 1..64 * used + 1]
    ensures |next| == |secs|
    ensures out == AllBits(start)[idx]
    ensures AllBits(next)[..64 * used]
            == AllBits(start)[..idx] + (AllBits(start)[..64 * used] + [false])[idx + 1..]
  {
    assert secs[q] == start[q];
    var w;
    out, w := RemoveBit(secs[q], o, leaved);
    BitOfWord(start, q, o, idx);
    DroppedWord(secs, start, q, o, idx, used, w);
    next := secs[q := w];
  }

  /** Shortening the shifted-down bits to `n - 1` gives `RemoveAt`. */
  lemma RemovedPrefix(s: seq<bool>, e: seq<bool>, idx: nat, n: nat, k: nat, t: seq<bool>)
    requires idx < n <= k <= |s| && e == s[..k] + [false]
    requires t == s[..idx] + e[idx + 1..]
    ensures t[..n - 1] == RemoveAt(s[..n], idx)
  {
  }

  /** The corrected cascade of `remove`: from the last used word down to
      word `q + 1`, each word gives up bit 0 to the word before it. */
  method PullAll(start: seq<bv64>, q: nat, used: nat) returns (secs: seq<bv64>, leaved: bool)
    requires q < used <= |start|
    ensures |secs| == |start|
    ensures forall j :: 0 <= j <= q ==> secs[j] == start[j]
    ensures leaved == (AllBits(start)[..64 * used] + [false])[64 * (q + 1)]
    ensures AllBits(secs)[64 * (q + 1)..64 * used]
            == (AllBits(start)[..64 * used] + [false])[64 * (q + 1) + 1..64 * used + 1]
  {
    ghost var e := AllBits(start)[..64 * used] + [false];
    leaved := false;
    secs := start;
    var i := used - 1;
    while i > q
      invariant q <= i < used <= |secs| == |start|
      invariant forall j :: 0 <= j <= i ==> secs[j] == start[j]
      invariant leaved == e[64 * (i + 1)]
      invariant AllBits(secs)[64 * (i + 1)..64 * used] == e[64 * (i + 1) + 1..64 * used + 1]
    {
      secs, leaved := PullInto(secs, start, i, used, leaved);
      i := i - 1;
    }
  }

  /** `remove` after the range check, carrying the pulled-out bits as
      intended. */
  method RemoveFrom(start: seq<bv64>, n: nat, idx: nat) returns (secs: seq<bv64>, out: bool)
    requires idx < n <= 64 * |start|
    ensures |secs| == |start|
    ensures out == AllBits(start)[..n][idx]
    ensures AllBits(secs)[..n - 1] == RemoveAt(AllBits(start)[..n], idx)
  {
    ghost var s := AllBits(start);
    var q, o := idx / 64, idx % 64;
    Arith.DivMod(idx, 64);
    var used := UsedWords(n);
    ghost var e := s[..64 * used] + [false];
    var pulled, leaved := PullAll(start, q, used);
    secs, out := DropFromWord(pulled, start, q, o, idx, used, leaved);
    ghost var t := s[..idx] + e[idx + 1..];
    assert AllBits(secs)[..64 * used] == t;
    ShorterPrefix(AllBits(secs), t, 64 * used, n - 1);
    RemovedPrefix(s, e, idx, n, 64 * used, t);
  }

  /** `remove` as intended: range check, the carried cascade, the size
      decreased, and when the new size is a multiple of 64 every word past
      the used ones dropped. */
  method Remove(b: Bitmap, idx: nat) returns (r: Result<(Bitmap, bool), CppError>)
    requires Valid(b)
    ensures r.Failure? <==> idx >= b.size
    ensures r.Failure? ==> r.error == OutOfRange
    ensures r.Success? ==> && Valid(r.value.0) && r.value.0.size == b.size - 1
                           && Elements(r.value.0) == RemoveAt(Elements(b), idx)
                           && r.value.1 == Elements(b)[idx]
                           && |r.value.0.sections|
                              == (if (b.size - 1) % 64 == 0 then (b.size - 1) / 64
                                  else |b.sections|)
  {
    if idx >= b.size {
      return Failure(OutOfRange);
    }
    var secs, out := RemoveFrom(b.sections, b.size, idx);
    var n := b.size - 1;
    Arith.DivMod(n, 64);
    if n % 64 == 0 {
      var keep := n / 64;
      PrefixWords(secs, keep);
      secs := secs[..keep];
    }
    r := Success((Bitmap(secs, n), out));
  }

  /** What `remove` as written does to the words: the loop over the words
      after word `idx / 64` discards each pulled-out bit and always passes
      `false` on, so every such word loses its bit 0 and gets a zero top bit;
      word `idx / 64` loses bit `idx % 64` and also gets a zero top bit. */
  ghost predicate RemovedAsWritten(secs: seq<bv64>, idx: nat, n: nat, next: seq<bv64>)
    requires idx < n <= 64 * |secs|
  {
    var q, o, used := idx / 64, idx % 64, UsedWords(n);
    && |next| == |secs|
    && (forall j :: 0 <= j < |secs| && (j < q || used <= j) ==> next[j] == secs[j])
    && Bits(next[q]) == RemoveAt(Bits(secs[q]), o) + [false]
    && (forall j :: q < j < used ==> Bits(next[j]) == Bits(secs[j])[1..] + [false])
  }

  /** The loop of `remove` as written: words `used - 1` down to `q + 1` each
      lose bit 0 and get a zero top bit. */
  method DropAll(start: seq<bv64>, q: nat, used: nat) returns (secs: seq<bv64>)
    requires q < used <= |start|
    ensures |secs| == |start|
    ensures forall j :: 0 <= j < |secs| && (j <= q || used <= j) ==> secs[j] == start[j]
    ensures forall j :: q < j < used ==> Bits(secs[j]) == Bits(start[j])[1..] + [false]
  {
    secs := start;
    var i := used - 1;
    while i > q
      invariant q <= i < used <= |secs| == |start|
      invariant forall j :: 0 <= j < |secs| && (j <= i || used <= j) ==> secs[j] == start[j]
      invariant forall j :: i < j < used ==> Bits(secs[j]) == Bits(start[j])[1..] + [false]
    {
      var _, w := RemoveBit(secs[i], 0, false);
      secs := secs[i := w];
      i := i - 1;
    }
  }

  /** `remove` as written: the pulled-out bits are dropped rather than carried,
      and the function returns before the size is decreased or any word
      released. */
  method RemoveAsWritten(b: Bitmap, idx: nat) returns (r: Result<(Bitmap, bool), CppError>)
    requires Valid(b)
    ensures r.Failure? <==> idx >= b.size
    ensures r.Failure? ==> r.error == OutOfRange
    ensures r.Success? ==> && r.value.0.size == b.size
                           && r.value.1 == Elements(b)[idx]
                           && RemovedAsWritten(b.sections, idx, b.size, r.value.0.sections)
  {
    if idx >= b.size {
      return Failure(OutOfRange);
    }
    var q, o := idx / 64, idx % 64;
    Arith.DivMod(idx, 64);
    var used := UsedWords(b.size);
    var secs := DropAll(b.sections, q, used);
    var leaved := false;
    var out, w := RemoveBit(secs[q], o, leaved);
    secs := secs[q := w];
    BitAt(b.sections, idx);
    r := Success((Bitmap(secs, b.size), out));
  }

  /** Two full words of ones' worth of bools (65 set bits): removing bool 0
      as written leaves bool 63 unset, where the bool that was at 64 should
      have moved down to it. */
  lemma RemoveAsWrittenLosesCarry(next: seq<bv64>)
    requires RemovedAsWritten([ALL_ONES, 1], 0, 65, next)
    ensures !AllBits(next)[63]
    ensures RemoveAt(Elements(Bitmap([ALL_ONES, 1], 65)), 0)[63]
  {
    var secs: seq<bv64> := [ALL_ONES, 1];
    BitAt(next, 63);
    BitAt(secs, 64);
    assert GetBit(1, 0);
  }

  // ---------------------------------------------------------------------
  // clear and resize

  /** `clear`: the size drops to zero; the words are kept (clearing a
      collection of trivially copyable words leaves them in place). */
  function Clear(b: Bitmap): (r: Bitmap)
    ensures Valid(r) && Elements(r) == [] && r.sections == b.sections
  {
    Bitmap(b.sections, 0)
  }

  /** `resize`: reserves room for `size` bools.  Refuses a size below the
      current one, and (through the words' own `resize`) a word count below
      the number of words held; otherwise only capacity changes, which the
      model does not track. */
  function Resize(b: Bitmap, size: nat): (r: Result<Bitmap, CppError>)
    requires Valid(b)
    ensures r.Failure? <==> size < b.size || Arith.CeilDiv(size, 64) < |b.sections|
    ensures r.Failure? ==> r.error == InvalidArgument
    ensures r.Success? ==> r.value == b && Elements(r.value) == Elements(b)
  {
    if size < b.size then Failure(InvalidArgument)
    else if Arith.CeilDiv(size, 64) < |b.sections| then Failure(InvalidArgument)
    else Success(b)
  }
}
