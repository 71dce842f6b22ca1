/** `SectionedCollection`: a sequence stored in fixed-size sections.  Every
    section is a fixed-capacity array of `sectionSize` slots; the collection
    keeps its elements packed, so all sections before the last used one are
    full and every section after it is empty.  The container of sections (a
    growing array with block size 1024) is modelled as a plain sequence. */
module SectionLayout {
  import opened Seqs
  import Arith

  // ---------------------------------------------------------------------
  // Sections and their concatenation

  /** The elements of the sections, in order. */
  function Flatten<T>(secs: seq<seq<T>>): seq<T>
  {
    if secs == [] then [] else secs[0] + Flatten(secs[1..])
  }

  lemma {:induction false} FlattenConcat<T>(a: seq<seq<T>>, b: seq<seq<T>>)
    ensures Flatten(a + b) == Flatten(a) + Flatten(b)
  {
    if a == [] {
      assert a + b == b;
    } else {
      assert (a + b)[1..] == a[1..] + b;
      FlattenConcat(a[1..], b);
    }
  }

  lemma FlattenSingle<T>(s: seq<T>)
    ensures Flatten([s]) == s
  {
    assert [s][1..] == [];
  }

  lemma FlattenPair<T>(a: seq<T>, b: seq<T>)
    ensures Flatten([a, b]) == a + b
  {
    assert [a, b][1..] == [b];
    FlattenSingle(b);
  }

  /** The sequence seen around section `k`. */
  lemma FlattenAround<T>(secs: seq<seq<T>>, k: nat)
    requires k < |secs|
    ensures Flatten(secs) == Flatten(secs[..k]) + secs[k] + Flatten(secs[k + 1..])
  {
    var tail := secs[k..];
    assert secs == secs[..k] + tail;
    FlattenConcat(secs[..k], tail);
    assert tail[0] == secs[k] && tail[1..] == secs[k + 1..];
  }

  /** `k` full sections hold `k * ss` elements. */
  lemma {:induction false} FullPrefixLength<T>(secs: seq<seq<T>>, ss: nat, k: nat)
    requires k <= |secs|
    requires forall j :: 0 <= j < k ==> |secs[j]| == ss
    ensures |Flatten(secs[..k])| == k * ss
  {
    if k > 0 {
      FullPrefixLength(secs, ss, k - 1);
      assert secs[..k] == secs[..k - 1] + [secs[k - 1]];
      FlattenConcat(secs[..k - 1], [secs[k - 1]]);
      FlattenSingle(secs[k - 1]);
    }
  }

  lemma {:induction false} EmptySectionsFlatten<T>(secs: seq<seq<T>>)
    requires forall j :: 0 <= j < |secs| ==> secs[j] == []
    ensures Flatten(secs) == []
  {
    if secs != [] {
      EmptySectionsFlatten(secs[1..]);
    }
  }

  /** No section holds more than `ss` elements, so neither does the whole
      collection hold more than the allocated `ss * |secs|`. */
  lemma {:induction false} FlattenBound<T>(secs: seq<seq<T>>, ss: nat)
    requires forall j :: 0 <= j < |secs| ==> |secs[j]| <= ss
    ensures |Flatten(secs)| <= |secs| * ss
  {
    if secs != [] {
      FlattenBound(secs[1..], ss);
      assert |secs| * ss == ss + (|secs| - 1) * ss;
    }
  }

  /** Editing one section edits the concatenation at the matching offset. */
  lemma EditSection<T>(secs: seq<seq<T>>, ss: nat, k: nat, s: seq<T>)
    requires k < |secs|
    requires forall j :: 0 <= j < k ==> |secs[j]| == ss
    ensures Flatten(secs[k := s]) == Flatten(secs[..k]) + s + Flatten(secs[k + 1..])
    ensures |Flatten(secs[..k])| == k * ss
  {
    var t := secs[k := s];
    FlattenAround(t, k);
    assert t[..k] == secs[..k] && t[k + 1..] == secs[k + 1..];
    FullPrefixLength(secs, ss, k);
  }

  // ---------------------------------------------------------------------
  // The packing invariant

  /** `full` complete sections, then (when `rem > 0`) one section with `rem`
      elements, then only empty sections. */
  predicate Shape<T>(secs: seq<seq<T>>, ss: nat, full: nat, rem: nat) {
    && rem < ss
    && full + (if rem > 0 then 1 else 0) <= |secs|
    && (forall j :: 0 <= j < full ==> |secs[j]| == ss)
    && (full < |secs| ==> |secs[full]| == rem)
    && (forall j :: full < j < |secs| ==> secs[j] == [])
  }

  /** The collection: its sections, the section size and the element count. */
  datatype Collection<T> = Collection(sections: seq<seq<T>>, sectionSize: nat, size: nat)

  /** A collection is packed: element `i` lives in section `i / sectionSize`. */
  predicate Valid<T>(c: Collection<T>) {
    match c
    case Collection(secs, ss, n) => ss > 0 && Shape(secs, ss, n / ss, n % ss)
  }

  /** The sequence the collection represents. */
  function Elements<T>(c: Collection<T>): seq<T> {
    Flatten(c.sections)
  }

  lemma ShapeLength<T>(secs: seq<seq<T>>, ss: nat, full: nat, rem: nat)
    requires Shape(secs, ss, full, rem)
    ensures |Flatten(secs)| == full * ss + rem
  {
    if full < |secs| {
      FlattenAround(secs, full);
      FullPrefixLength(secs, ss, full);
      EmptySectionsFlatten(secs[full + 1..]);
    } else {
      assert secs[..full] == secs;
      FullPrefixLength(secs, ss, full);
    }
  }

  /** A valid collection represents exactly `size` elements. */
  lemma ValidLength<T>(c: Collection<T>)
    requires Valid(c)
    ensures |Elements(c)| == c.size
  {
    ShapeLength(c.sections, c.sectionSize, c.size / c.sectionSize, c.size % c.sectionSize);
    Arith.DivMod(c.size, c.sectionSize);
  }

  /** Where a position below `n` falls relative to the last used section. */
  lemma SplitIndex(idx: nat, n: nat, ss: nat)
    requires ss > 0 && idx <= n
    ensures idx / ss <= n / ss
    ensures idx / ss == n / ss ==> idx % ss <= n % ss
    ensures idx < n && idx / ss == n / ss ==> idx % ss < n % ss
  {
    Arith.DivMonotone(idx, n, ss);
  }

  /** Element `idx` of a packed collection sits at offset `idx % ss` of
      section `idx / ss`. */
  lemma ValidIndex<T>(c: Collection<T>, idx: nat)
    requires Valid(c) && idx < c.size
    ensures idx / c.sectionSize < |c.sections|
    ensures idx % c.sectionSize < |c.sections[idx / c.sectionSize]|
    ensures |Elements(c)| == c.size
    ensures idx == (idx / c.sectionSize) * c.sectionSize + idx % c.sectionSize
    ensures Elements(c)[idx] == c.sections[idx / c.sectionSize][idx % c.sectionSize]
  {
    var ss, secs := c.sectionSize, c.sections;
    var q, o := idx / ss, idx % ss;
    var f, rem := c.size / ss, c.size % ss;
    SplitIndex(idx, c.size, ss);
    assert q < |secs| && o < |secs[q]| by {
      if q < f {
        assert |secs[q]| == ss;
      } else {
        assert q == f && o < rem;
      }
    }
    ValidLength(c);
    InSectionAt(secs, ss, idx, q, o);
  }

  /** Position `idx` is offset `o` of section `q`. */
  lemma PositionOf<T>(c: Collection<T>, idx: nat, q: nat, o: nat)
    requires Valid(c) && idx < c.size
    requires q == idx / c.sectionSize && o == idx % c.sectionSize
    ensures q < |c.sections| && o < |c.sections[q]| && idx == q * c.sectionSize + o
  {
    ValidIndex(c, idx);
  }

  /** Every section before the one holding position `idx` is full. */
  lemma FullBefore<T>(c: Collection<T>, idx: nat, q: nat)
    requires Valid(c) && idx < c.size && q == idx / c.sectionSize && q < |c.sections|
    ensures forall j :: 0 <= j < q ==> |c.sections[j]| == c.sectionSize
  {
    SplitIndex(idx, c.size, c.sectionSize);
  }

  lemma SectionOfIndex<T>(c: Collection<T>, idx: nat)
    requires Valid(c) && idx < c.size
    ensures idx / c.sectionSize < |c.sections|
  {
    ValidIndex(c, idx);
  }

  lemma InSectionAt<T>(secs: seq<seq<T>>, ss: nat, idx: nat, q: nat, o: nat)
    requires ss > 0 && q == idx / ss && o == idx % ss
    requires q < |secs| && o < |secs[q]|
    requires forall j :: 0 <= j < q ==> |secs[j]| == ss
    ensures idx == q * ss + o
    ensures idx < |Flatten(secs)| && Flatten(secs)[idx] == secs[q][o]
  {
    Arith.DivMod(idx, ss);
    IndexInSection(secs, ss, q, o);
  }

  /** Offset `o` of section `k` is position `k * ss + o` of the concatenation
      when every earlier section is full. */
  lemma IndexInSection<T>(secs: seq<seq<T>>, ss: nat, k: nat, o: nat)
    requires k < |secs| && o < |secs[k]|
    requires forall j :: 0 <= j < k ==> |secs[j]| == ss
    ensures k * ss + o < |Flatten(secs)|
    ensures Flatten(secs)[k * ss + o] == secs[k][o]
  {
    FlattenAround(secs, k);
    FullPrefixLength(secs, ss, k);
  }

  /** Overwriting offset `o` of section `k` overwrites position `k * ss + o`. */
  lemma UpdateInSection<T>(secs: seq<seq<T>>, ss: nat, k: nat, o: nat, x: T, pos: nat)
    requires k < |secs| && o < |secs[k]| && pos == k * ss + o
    requires forall j :: 0 <= j < k ==> |secs[j]| == ss
    ensures pos < |Flatten(secs)|
    ensures Flatten(secs[k := secs[k][o := x]]) == Flatten(secs)[pos := x]
  {
    EditSection(secs, ss, k, secs[k][o := x]);
    FlattenAround(secs, k);
    var pre, post := Flatten(secs[..k]), Flatten(secs[k + 1..]);
    assert (pre + secs[k] + post)[pos := x] == pre + secs[k][o := x] + post;
  }

  /** Inserting at offset `o` of section `k` inserts at position `k * ss + o`. */
  lemma InsertInSection<T>(secs: seq<seq<T>>, ss: nat, k: nat, o: nat, x: T, pos: nat)
    requires k < |secs| && o <= |secs[k]| && pos == k * ss + o
    requires forall j :: 0 <= j < k ==> |secs[j]| == ss
    ensures pos <= |Flatten(secs)|
    ensures Flatten(secs[k := InsertAt(secs[k], o, x)]) == InsertAt(Flatten(secs), pos, x)
  {
    EditSection(secs, ss, k, InsertAt(secs[k], o, x));
    FlattenAround(secs, k);
    var pre, post := Flatten(secs[..k]), Flatten(secs[k + 1..]);
    var lhs := pre + InsertAt(secs[k], o, x) + post;
    var rhs := InsertAt(pre + secs[k] + post, pos, x);
    assert |lhs| == |rhs|;
    forall j | 0 <= j < |lhs|
      ensures lhs[j] == rhs[j]
    {
      if j < |pre| {
      } else if j < |pre| + |secs[k]| + 1 {
      } else {
      }
    }
  }

  /** Removing offset `o` of section `k` removes position `k * ss + o`. */
  lemma RemoveInSection<T>(secs: seq<seq<T>>, ss: nat, k: nat, o: nat, pos: nat)
    requires k < |secs| && o < |secs[k]| && pos == k * ss + o
    requires forall j :: 0 <= j < k ==> |secs[j]| == ss
    ensures pos < |Flatten(secs)|
    ensures Flatten(secs[k := RemoveAt(secs[k], o)]) == RemoveAt(Flatten(secs), pos)
  {
    EditSection(secs, ss, k, RemoveAt(secs[k], o));
    FlattenAround(secs, k);
    var pre, post := Flatten(secs[..k]), Flatten(secs[k + 1..]);
    var lhs := pre + RemoveAt(secs[k], o) + post;
    var rhs := RemoveAt(pre + secs[k] + post, pos);
    assert |lhs| == |rhs|;
    forall j | 0 <= j < |lhs|
      ensures lhs[j] == rhs[j]
    {
      if j < |pre| {
      } else if j < |pre| + |secs[k]| - 1 {
      } else {
      }
    }
  }

  /** Overwriting a section with one of the same length keeps the layout. */
  lemma SameLengthKeepsValid<T>(c: Collection<T>, k: nat, s: seq<T>)
    requires Valid(c) && k < |c.sections| && |s| == |c.sections[k]|
    ensures Valid(c.(sections := c.sections[k := s]))
  {
    var t := c.sections[k := s];
    forall j | 0 <= j < |t|
      ensures |t[j]| == |c.sections[j]|
    {
    }
  }

  /** A packed layout of `full * ss + rem` elements is a valid collection. */
  lemma ShapeIsValid<T>(secs: seq<seq<T>>, ss: nat, full: nat, rem: nat, n: nat)
    requires Shape(secs, ss, full, rem) && n == full * ss + rem
    ensures Valid(Collection(secs, ss, n))
  {
    Arith.DivModUnique(n, ss, full, rem);
  }

  /** Sections with sizes `ss, …, ss, rem + 1, 0, …`: the packed layout of
      `full` full sections and `rem` more, after one insertion. */
  predicate Grown<T>(secs: seq<seq<T>>, ss: nat, full: nat, rem: nat) {
    && rem < ss && full < |secs|
    && (forall j :: 0 <= j < full ==> |secs[j]| == ss)
    && |secs[full]| == rem + 1
    && (forall j :: full < j < |secs| ==> secs[j] == [])
  }

  /** Such a layout is packed. */
  lemma GrownShape<T>(secs: seq<seq<T>>, ss: nat, full: nat, rem: nat)
    requires Grown(secs, ss, full, rem)
    ensures Valid(Collection(secs, ss, full * ss + rem + 1))
  {
    if rem + 1 < ss {
      ShapeIsValid(secs, ss, full, rem + 1, full * ss + rem + 1);
    } else {
      assert (full + 1) * ss == full * ss + rem + 1;
      ShapeIsValid(secs, ss, full + 1, 0, full * ss + rem + 1);
    }
  }

  /** `r` is `c` with position `p` taken out, and `r`'s element is the one
      that stood there. */
  ghost predicate RemovedAt<T>(c: Collection<T>, r: (Collection<T>, T), p: nat)
    requires Valid(c)
  {
    match r
    case (d, x) =>
      && Valid(d) && d.size == c.size - 1 && d.sectionSize == c.sectionSize
      && p < |Elements(c)|
      && x == Elements(c)[p]
      && Elements(d) == RemoveAt(Elements(c), p)
  }

}
