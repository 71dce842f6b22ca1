/** Positional insertion and removal on sequences: the value-level meaning of
    every collection's `insert` and `remove`. */
module Seqs {

  /** `s` with `x` placed at position `i`; later elements move up by one. */
  function InsertAt<T>(s: seq<T>, i: nat, x: T): (r: seq<T>)
    requires i <= |s|
    ensures |r| == |s| + 1
    ensures r[i] == x
    ensures forall j :: 0 <= j < i ==> r[j] == s[j]
    ensures forall j :: i < j < |r| ==> r[j] == s[j - 1]
  {
    s[..i] + [x] + s[i..]
  }

  /** `s` without position `i`; later elements move down by one. */
  function RemoveAt<T>(s: seq<T>, i: nat): (r: seq<T>)
    requires i < |s|
    ensures |r| == |s| - 1
    ensures forall j :: 0 <= j < i ==> r[j] == s[j]
    ensures forall j :: i <= j < |r| ==> r[j] == s[j + 1]
  {
    s[..i] + s[i + 1..]
  }

  /** Removing what was just inserted gives the original sequence back. */
  lemma RemoveAfterInsert<T>(s: seq<T>, i: nat, x: T)
    requires i <= |s|
    ensures RemoveAt(InsertAt(s, i, x), i) == s
  {
    var t := RemoveAt(InsertAt(s, i, x), i);
    assert forall j :: 0 <= j < |s| ==> t[j] == s[j];
  }

  /** Re-inserting a removed element at its old position restores the sequence. */
  lemma InsertAfterRemove<T>(s: seq<T>, i: nat)
    requires i < |s|
    ensures InsertAt(RemoveAt(s, i), i, s[i]) == s
  {
    var t := InsertAt(RemoveAt(s, i), i, s[i]);
    assert forall j :: 0 <= j < |s| ==> t[j] == s[j];
  }

  /** How many times `v` occurs in `s`. */
  function Count<T(==)>(s: seq<T>, v: T): (r: nat)
    ensures r <= |s|
  {
    if |s| == 0 then 0 else (if s[|s| - 1] == v then 1 else 0) + Count(s[..|s| - 1], v)
  }

  /** Counting one more element of a prefix. */
  lemma CountPrefix<T>(s: seq<T>, i: nat, v: T)
    requires i < |s|
    ensures Count(s[..i + 1], v) == Count(s[..i], v) + (if s[i] == v then 1 else 0)
  {
    assert s[..i + 1][..i] == s[..i];
  }

  /** Counts add up over a concatenation. */
  lemma {:induction false} CountConcat<T>(a: seq<T>, b: seq<T>, v: T)
    ensures Count(a + b, v) == Count(a, v) + Count(b, v)
    decreases |b|
  {
    if |b| == 0 {
      assert a + b == a;
    } else {
      assert (a + b)[..|a + b| - 1] == a + b[..|b| - 1];
      CountConcat(a, b[..|b| - 1], v);
    }
  }

  /** Every bool is either `true` or `false`. */
  lemma {:induction false} CountComplement(s: seq<bool>)
    ensures Count(s, true) + Count(s, false) == |s|
  {
    if |s| > 0 {
      var init := s[..|s| - 1];
      CountComplement(init);
      assert Count(s, true) == (if s[|s| - 1] then 1 else 0) + Count(init, true);
      assert Count(s, false) == (if s[|s| - 1] then 0 else 1) + Count(init, false);
    }
  }

  /** Overwriting one position changes the count by what left and what came. */
  lemma CountUpdate<T>(s: seq<T>, i: nat, x: T, v: T)
    requires i < |s|
    ensures Count(s[i := x], v) + (if s[i] == v then 1 else 0) == Count(s, v) + (if x == v then 1 else 0)
  {
    var t := s[i := x];
    assert s == s[..i] + [s[i]] + s[i + 1..];
    assert t == s[..i] + [x] + s[i + 1..];
    CountConcat(s[..i] + [s[i]], s[i + 1..], v);
    CountConcat(s[..i], [s[i]], v);
    CountConcat(s[..i] + [x], s[i + 1..], v);
    CountConcat(s[..i], [x], v);
  }

  /** No value occurs twice. */
  predicate Distinct<T(==)>(s: seq<T>) {
    forall i, j :: 0 <= i < j < |s| ==> s[i] != s[j]
  }

  /** Distinct values below `n` number at most `n`. */
  lemma {:induction false} DistinctBelow(s: seq<nat>, n: nat)
    requires Distinct(s)
    requires forall i :: 0 <= i < |s| ==> s[i] < n
    ensures |s| <= n
    decreases n
  {
    if |s| > 0 {
      assert s[0] < n;
      if k :| 0 <= k < |s| && s[k] == n - 1 {
        var t := RemoveAt(s, k);
        forall i | 0 <= i < |t|
          ensures t[i] < n - 1
        {
          if i < k {
            assert t[i] == s[i] != s[k];
          } else {
            assert t[i] == s[i + 1] != s[k];
          }
        }
        forall i, j | 0 <= i < j < |t|
          ensures t[i] != t[j]
        {
          if j < k {
          } else if i < k {
            assert t[j] == s[j + 1];
          } else {
            assert t[i] == s[i + 1] && t[j] == s[j + 1];
          }
        }
        DistinctBelow(t, n - 1);
      } else {
        DistinctBelow(s, n - 1);
      }
    }
  }
}
