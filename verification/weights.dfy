/** The weight builders of the Python layer: from the stoichiometry and
    the net rates of progress of a mechanism at one state they compute the
    DRG, DRGEP or PFA interaction coefficient of every ordered species
    pair, and hand the rows to the CSR builder in order.

    numpy's arrays become sequences and floating point becomes `real`;
    every division is guarded by a zero test, as in the builders. */
module Weights {
  import opened Wrappers
  import CsrBuilder
  import Csr

  // ---------------------------------------------------------------------
  // Mechanism data

  /** What a builder reads from the mechanism: the product and reactant
      stoichiometric coefficients (one row per species, one column per
      reaction) and the net rate of progress of every reaction. */
  datatype Kinetics = Kinetics(products: seq<seq<real>>, reactants: seq<seq<real>>, rates: seq<real>)

  /** `k` describes `n` species and `|k.rates|` reactions. */
  predicate HasSpecies(k: Kinetics, n: nat) {
    && |k.products| == n && |k.reactants| == n
    && (forall a :: 0 <= a < n ==> |k.products[a]| == |k.rates| && |k.reactants[a]| == |k.rates|)
  }

  /** Reaction `i` has a nonzero net rate: only these contribute. */
  predicate Active(k: Kinetics, i: nat)
    requires i < |k.rates|
  {
    k.rates[i] != 0.0
  }

  /** Some reaction is active: otherwise no row is added at all. */
  predicate AnyActive(k: Kinetics) {
    exists i :: 0 <= i < |k.rates| && k.rates[i] != 0.0
  }

  /** Species `b` takes part in reaction `i`: one of its two
      stoichiometric coefficients is nonzero. */
  predicate Involved(k: Kinetics, n: nat, b: nat, i: nat)
    requires HasSpecies(k, n) && b < n && i < |k.rates|
  {
    k.products[b][i] != 0.0 || k.reactants[b][i] != 0.0
  }

  /** The "base rate" of species `a` in reaction `i`: its net
      stoichiometry (reactant minus product coefficient) times the net
      rate. */
  function Rate(k: Kinetics, n: nat, a: nat, i: nat): real
    requires HasSpecies(k, n) && a < n && i < |k.rates|
  {
    (k.reactants[a][i] - k.products[a][i]) * k.rates[i]
  }

  // ---------------------------------------------------------------------
  // Sums of base rates

  /** Which part of a base rate a sum takes: the value, its absolute
      value, `max(x, 0)` or `-min(x, 0)`. */
  datatype Part = Signed | Magnitude | Positive | Negative

  /** `part` of `x`; every part but the signed one is nonnegative. */
  function Take(part: Part, x: real): (r: real)
    ensures part != Signed ==> r >= 0.0
  {
    match part
    case Signed => x
    case Magnitude => if x < 0.0 then -x else x
    case Positive => if x > 0.0 then x else 0.0
    case Negative => if x < 0.0 then -x else 0.0
  }

  /** A value is its positive part minus its negative part, and its
      absolute value is their sum. */
  lemma TakeSplits(x: real)
    ensures Take(Signed, x) == Take(Positive, x) - Take(Negative, x)
    ensures Take(Magnitude, x) == Take(Positive, x) + Take(Negative, x)
  {
  }

  /** The reactions a sum runs over: every active one, or the active ones
      species `species` takes part in (the `np.where(flags[b])` columns). */
  datatype Over = AllReactions | Involving(species: nat)

  /** `over` names a species of the mechanism. */
  predicate Within(n: nat, over: Over) {
    over.Involving? ==> over.species < n
  }

  /** Reaction `i` belongs to the sum over `over`. */
  predicate Counted(k: Kinetics, n: nat, over: Over, i: nat)
    requires HasSpecies(k, n) && Within(n, over) && i < |k.rates|
  {
    Active(k, i) && (over.AllReactions? || Involved(k, n, over.species, i))
  }

  /** The sum over reactions `0..j-1` counted by `over` of `part` of the
      base rate of species `a`. */
  function Total(k: Kinetics, n: nat, a: nat, over: Over, part: Part, j: nat): real
    requires HasSpecies(k, n) && a < n && Within(n, over) && j <= |k.rates|
  {
    if j == 0 then 0.0
    else Total(k, n, a, over, part, j - 1) + (if Counted(k, n, over, j - 1) then Take(part, Rate(k, n, a, j - 1)) else 0.0)
  }

  /** The same sum over every reaction, active or not: the reference the
      filtering on nonzero rates is checked against. */
  function Unfiltered(k: Kinetics, n: nat, a: nat, over: Over, part: Part, j: nat): real
    requires HasSpecies(k, n) && a < n && Within(n, over) && j <= |k.rates|
  {
    if j == 0 then 0.0
    else
      Unfiltered(k, n, a, over, part, j - 1)
      + (if over.AllReactions? || Involved(k, n, over.species, j - 1) then Take(part, Rate(k, n, a, j - 1)) else 0.0)
  }

  /** Dropping the reactions with a zero net rate changes no sum: their
      base rates are 0. */
  lemma {:induction false} TotalIgnoresInactive(k: Kinetics, n: nat, a: nat, over: Over, part: Part, j: nat)
    requires HasSpecies(k, n) && a < n && Within(n, over) && j <= |k.rates|
    ensures Total(k, n, a, over, part, j) == Unfiltered(k, n, a, over, part, j)
  {
    if j > 0 {
      TotalIgnoresInactive(k, n, a, over, part, j - 1);
      if !Active(k, j - 1) {
        assert Rate(k, n, a, j - 1) == 0.0;
      }
    }
  }

  /** Without an active reaction every sum is 0. */
  lemma {:induction false} TotalWithoutActive(k: Kinetics, n: nat, a: nat, over: Over, part: Part, j: nat)
    requires HasSpecies(k, n) && a < n && Within(n, over) && j <= |k.rates| && !AnyActive(k)
    ensures Total(k, n, a, over, part, j) == 0.0
  {
    if j > 0 {
      TotalWithoutActive(k, n, a, over, part, j - 1);
      assert !Active(k, j - 1);
    }
  }

  /** A sum of nonnegative parts is nonnegative. */
  lemma {:induction false} TotalNonnegative(k: Kinetics, n: nat, a: nat, over: Over, part: Part, j: nat)
    requires HasSpecies(k, n) && a < n && Within(n, over) && j <= |k.rates| && part != Signed
    ensures Total(k, n, a, over, part, j) >= 0.0
  {
    if j > 0 {
      TotalNonnegative(k, n, a, over, part, j - 1);
    }
  }

  /** The reactions species `b` takes part in are some of the active ones,
      so their sum of a nonnegative part is at most the whole sum. */
  lemma {:induction false} TotalInvolvingAtMost(k: Kinetics, n: nat, a: nat, b: nat, part: Part, j: nat)
    requires HasSpecies(k, n) && a < n && b < n && j <= |k.rates| && part != Signed
    ensures 0.0 <= Total(k, n, a, Involving(b), part, j) <= Total(k, n, a, AllReactions, part, j)
  {
    if j > 0 {
      TotalInvolvingAtMost(k, n, a, b, part, j - 1);
    }
  }

  /** A signed sum is its positive part minus its negative part. */
  lemma {:induction false} TotalSplits(k: Kinetics, n: nat, a: nat, over: Over, j: nat)
    requires HasSpecies(k, n) && a < n && Within(n, over) && j <= |k.rates|
    ensures Total(k, n, a, over, Signed, j) == Total(k, n, a, over, Positive, j) - Total(k, n, a, over, Negative, j)
  {
    if j > 0 {
      TotalSplits(k, n, a, over, j - 1);
      TakeSplits(Rate(k, n, a, j - 1));
    }
  }

  // ---------------------------------------------------------------------
  // Weights

  /** `np.where(den != 0, num / den, 0)` at one position. */
  function Ratio(num: real, den: real): (r: real)
    ensures den == 0.0 ==> r == 0.0
  {
    if den != 0.0 then num / den else 0.0
  }

  /** A part of a nonnegative whole is a fraction in [0, 1]. */
  lemma RatioBounded(num: real, den: real)
    requires 0.0 <= num <= den
    ensures 0.0 <= Ratio(num, den) <= 1.0
  {
    if den != 0.0 {
      assert num / den * den == num;
    }
  }

  /** The larger of two values (`np.maximum`). */
  function Max(x: real, y: real): (r: real)
    ensures r >= x && r >= y && (r == x || r == y)
  {
    if x >= y then x else y
  }

  /** The absolute value (`np.abs`). */
  function Abs(x: real): (r: real)
    ensures r >= 0.0 && (r == x || r == -x)
  {
    if x < 0.0 then -x else x
  }

  /** The sum over every active reaction of `part` of the base rate of `a`. */
  function Whole(k: Kinetics, n: nat, a: nat, part: Part): real
    requires HasSpecies(k, n) && a < n
  {
    Total(k, n, a, AllReactions, part, |k.rates|)
  }

  /** The sum over the active reactions `b` takes part in. */
  function Through(k: Kinetics, n: nat, a: nat, b: nat, part: Part): real
    requires HasSpecies(k, n) && a < n && b < n
  {
    Total(k, n, a, Involving(b), part, |k.rates|)
  }

  /** The DRG coefficient of `a -> b`: the share of the absolute base
      rates of `a` carried by reactions involving `b`; 0 when `a` has no
      base rate at all, and 0 on the diagonal. */
  function DrgWeight(k: Kinetics, n: nat, a: nat, b: nat): real
    requires HasSpecies(k, n) && a < n && b < n
  {
    if a == b then 0.0 else Ratio(Through(k, n, a, b, Magnitude), Whole(k, n, a, Magnitude))
  }

  /** The DRGEP denominator of `a`: the larger of its total positive and
      total negative base rate. */
  function Scale(k: Kinetics, n: nat, a: nat): real
    requires HasSpecies(k, n) && a < n
  {
    Max(Whole(k, n, a, Positive), Whole(k, n, a, Negative))
  }

  /** The DRGEP coefficient of `a -> b`: the absolute net base rate of `a`
      over reactions involving `b`, relative to `Scale`; 0 on a zero
      scale and on the diagonal. */
  function DrgepWeight(k: Kinetics, n: nat, a: nat, b: nat): real
    requires HasSpecies(k, n) && a < n && b < n
  {
    if a == b then 0.0 else Ratio(Abs(Through(k, n, a, b, Signed)), Scale(k, n, a))
  }

  /** DRG coefficients are fractions, 0 on the diagonal and in every row
      without a base rate. */
  lemma DrgWeightBounded(k: Kinetics, n: nat, a: nat, b: nat)
    requires HasSpecies(k, n) && a < n && b < n
    ensures 0.0 <= DrgWeight(k, n, a, b) <= 1.0
    ensures a == b ==> DrgWeight(k, n, a, b) == 0.0
    ensures Whole(k, n, a, Magnitude) == 0.0 ==> DrgWeight(k, n, a, b) == 0.0
  {
    TotalInvolvingAtMost(k, n, a, b, Magnitude, |k.rates|);
    RatioBounded(Through(k, n, a, b, Magnitude), Whole(k, n, a, Magnitude));
  }

  /** DRGEP coefficients are fractions, 0 on the diagonal and in every row
      with a zero scale: the net rate over some reactions is at most the
      larger of its positive and negative parts over all of them. */
  lemma DrgepWeightBounded(k: Kinetics, n: nat, a: nat, b: nat)
    requires HasSpecies(k, n) && a < n && b < n
    ensures 0.0 <= DrgepWeight(k, n, a, b) <= 1.0
    ensures a == b ==> DrgepWeight(k, n, a, b) == 0.0
    ensures Scale(k, n, a) == 0.0 ==> DrgepWeight(k, n, a, b) == 0.0
  {
    TotalInvolvingAtMost(k, n, a, b, Positive, |k.rates|);
    TotalInvolvingAtMost(k, n, a, b, Negative, |k.rates|);
    TotalSplits(k, n, a, Involving(b), |k.rates|);
    RatioBounded(Abs(Through(k, n, a, b, Signed)), Scale(k, n, a));
  }

  // ---------------------------------------------------------------------
  // PFA

  /** A one-hop PFA coefficient of `a -> b` (`r_pro_AB1` for the positive
      part, `r_con_AB1` for the negative one) before the diagonal is
      touched: the part carried by reactions involving `b`, relative to
      the DRGEP scale of `a`. */
  function OneHop(k: Kinetics, n: nat, part: Part, a: nat, b: nat): real
    requires HasSpecies(k, n) && a < n && b < n
  {
    Ratio(Through(k, n, a, b, part), Scale(k, n, a))
  }

  /** One-hop coefficients of either part are fractions. */
  lemma OneHopBounded(k: Kinetics, n: nat, part: Part, a: nat, b: nat)
    requires HasSpecies(k, n) && a < n && b < n && (part == Positive || part == Negative)
    ensures 0.0 <= OneHop(k, n, part, a, b) <= 1.0
  {
    TotalInvolvingAtMost(k, n, a, b, part, |k.rates|);
    RatioBounded(Through(k, n, a, b, part), Scale(k, n, a));
  }

  /** The matrix of one-hop coefficients. */
  function OneHops(k: Kinetics, n: nat, part: Part): (w: seq<seq<real>>)
    requires HasSpecies(k, n)
    ensures CsrBuilder.Dense(w, n)
  {
    seq(n, a requires 0 <= a < n => seq(n, b requires 0 <= b < n => OneHop(k, n, part, a, b)))
  }

  /** Entry `(a, b)` of `w` with the diagonal read as 0. */
  function OffDiagonal(w: seq<seq<real>>, n: nat, a: nat, b: nat): real
    requires CsrBuilder.Dense(w, n) && a < n && b < n
  {
    if a == b then 0.0 else w[a][b]
  }

  /** What one intermediate contributes to a two-hop sum: the product of
      the hop into it and the hop out of it. */
  function Via(x: real, y: real): real {
    x * y
  }

  /** The two-hop sum over intermediates `0..j-1`: the products of the
      coefficients `a -> m` and `m -> b` with the diagonal read as 0. */
  function TwoHop(w: seq<seq<real>>, n: nat, a: nat, b: nat, j: nat): real
    requires CsrBuilder.Dense(w, n) && a < n && b < n && j <= n
  {
    if j == 0 then 0.0 else TwoHop(w, n, a, b, j - 1) + Via(OffDiagonal(w, n, a, j - 1), OffDiagonal(w, n, j - 1, b))
  }

  /** `w` with entry `(m, m)` set to 0, as the assignments through the
      column and row views of the loop do. */
  function ZeroAt(w: seq<seq<real>>, n: nat, m: nat): (r: seq<seq<real>>)
    requires CsrBuilder.Dense(w, n) && m < n
    ensures CsrBuilder.Dense(r, n)
    ensures forall a, b :: 0 <= a < n && 0 <= b < n ==> r[a][b] == (if a == m && b == m then 0.0 else w[a][b])
  {
    w[m := w[m][m := 0.0]]
  }

  /** Column `m` of `w` (the view `w[:, m]`). */
  function Column(w: seq<seq<real>>, n: nat, m: nat): (r: seq<real>)
    requires CsrBuilder.Dense(w, n) && m < n
    ensures |r| == n && forall a :: 0 <= a < n ==> r[a] == w[a][m]
  {
    seq(n, a requires 0 <= a < n => w[a][m])
  }

  /** `np.outer(col, row)`, added to `acc` when there is one. */
  function AddOuter(acc: Option<seq<seq<real>>>, col: seq<real>, row: seq<real>, n: nat): (r: seq<seq<real>>)
    requires |col| == n && |row| == n && (acc.Some? ==> CsrBuilder.Dense(acc.value, n))
    ensures CsrBuilder.Dense(r, n)
    ensures forall a, b :: 0 <= a < n && 0 <= b < n ==>
              r[a][b] == (if acc.Some? then acc.value[a][b] else 0.0) + Via(col[a], row[b])
  {
    seq(n, a requires 0 <= a < n =>
      seq(n, b requires 0 <= b < n => (if acc.Some? then acc.value[a][b] else 0.0) + Via(col[a], row[b])))
  }

  /** The loop state after intermediates `0..m-1` on the one-hop matrix
      `w`: the diagonal is zeroed up to `m`, and the two-hop sums exist
      once an intermediate has been visited. */
  ghost predicate LoopState(w: seq<seq<real>>, n: nat, m: nat, cur: seq<seq<real>>, two: Option<seq<seq<real>>>)
    requires CsrBuilder.Dense(w, n) && m <= n
  {
    && CsrBuilder.Dense(cur, n)
    && (forall a, b :: 0 <= a < n && 0 <= b < n ==> cur[a][b] == (if a == b && a < m then 0.0 else w[a][b]))
    && (two.None? <==> m == 0)
    && (two.Some? ==>
          && CsrBuilder.Dense(two.value, n)
          && forall a, b :: 0 <= a < n && 0 <= b < n ==> two.value[a][b] == TwoHop(w, n, a, b, m))
  }

  /** One turn of the loop keeps `LoopState`. */
  lemma LoopStep(w: seq<seq<real>>, n: nat, m: nat, cur: seq<seq<real>>, two: Option<seq<seq<real>>>)
    requires CsrBuilder.Dense(w, n) && m < n && LoopState(w, n, m, cur, two)
    ensures var cur' := ZeroAt(cur, n, m);
            LoopState(w, n, m + 1, cur', Some(AddOuter(two, Column(cur', n, m), cur'[m], n)))
  {
    var cur' := ZeroAt(cur, n, m);
    var col, row := Column(cur', n, m), cur'[m];
    var two' := AddOuter(two, col, row, n);
    forall a, b | 0 <= a < n && 0 <= b < n
      ensures two'[a][b] == TwoHop(w, n, a, b, m + 1)
    {
      assert col[a] == OffDiagonal(w, n, a, m);
      assert row[b] == OffDiagonal(w, n, m, b);
    }
  }

  /** The two-hop loop of the PFA builder as written, for one part: for
      each intermediate `m` in turn it zeroes entry `(m, m)` of the one-hop
      matrix through the views, then adds the outer product of column `m`
      and row `m` to the two-hop sums (the first product starts them). */
  method TwoHopLoop(w: seq<seq<real>>, n: nat) returns (one: seq<seq<real>>, two: Option<seq<seq<real>>>)
    requires CsrBuilder.Dense(w, n)
    ensures CsrBuilder.Dense(one, n)
    ensures forall a, b :: 0 <= a < n && 0 <= b < n ==> one[a][b] == OffDiagonal(w, n, a, b)
    ensures two.None? <==> n == 0
    ensures two.Some? ==> CsrBuilder.Dense(two.value, n)
    ensures two.Some? ==> forall a, b :: 0 <= a < n && 0 <= b < n ==> two.value[a][b] == TwoHop(w, n, a, b, n)
  {
    one, two := w, None;
    var m := 0;
    while m < n
      invariant m <= n && LoopState(w, n, m, one, two)
    {
      LoopStep(w, n, m, one, two);
      one := ZeroAt(one, n, m);
      two := Some(AddOuter(two, Column(one, n, m), one[m], n));
      m := m + 1;
    }
  }

  /** The PFA coefficient of `a -> b`: both one-hop coefficients with the
      diagonal zeroed plus both two-hop sums over every intermediate.  The
      diagonal is not zeroed afterwards. */
  function PfaWeight(k: Kinetics, n: nat, a: nat, b: nat): real
    requires HasSpecies(k, n) && a < n && b < n
  {
    var pro, con := OneHops(k, n, Positive), OneHops(k, n, Negative);
    OffDiagonal(pro, n, a, b) + OffDiagonal(con, n, a, b) + TwoHop(pro, n, a, b, n) + TwoHop(con, n, a, b, n)
  }

  /** Why the PFA matrix cannot be formed: with active reactions but no
      species the loop never binds the views it then deletes. */
  datatype PfaError = UnboundLocal

  /** The PFA matrix as the builder forms it: the loop over both parts,
      then `r_pro_AB1 + r_con_AB1 + r_pro_AB2 + r_con_AB2`. */
  method PfaMatrix(k: Kinetics, n: nat) returns (r: Result<seq<seq<real>>, PfaError>)
    requires HasSpecies(k, n)
    ensures r.Failure? <==> n == 0
    ensures r.Success? ==> CsrBuilder.Dense(r.value, n)
    ensures r.Success? ==> forall a, b :: 0 <= a < n && 0 <= b < n ==> r.value[a][b] == PfaWeight(k, n, a, b)
  {
    var pro1, pro2 := TwoHopLoop(OneHops(k, n, Positive), n);
    var con1, con2 := TwoHopLoop(OneHops(k, n, Negative), n);
    if pro2.None? || con2.None? {
      return Failure(UnboundLocal);
    }
    var sum := seq(n, a requires 0 <= a < n =>
      seq(n, b requires 0 <= b < n => pro1[a][b] + con1[a][b] + pro2.value[a][b] + con2.value[a][b]));
    return Success(sum);
  }

  /** Each two-hop sum over `j` intermediates of fractions lies in [0, j]. */
  lemma {:induction false} TwoHopBounded(w: seq<seq<real>>, n: nat, a: nat, b: nat, j: nat)
    requires CsrBuilder.Dense(w, n) && a < n && b < n && j <= n
    requires forall x, y :: 0 <= x < n && 0 <= y < n ==> 0.0 <= w[x][y] <= 1.0
    ensures 0.0 <= TwoHop(w, n, a, b, j) <= j as real
  {
    if j > 0 {
      TwoHopBounded(w, n, a, b, j - 1);
      var x, y := OffDiagonal(w, n, a, j - 1), OffDiagonal(w, n, j - 1, b);
      FractionProduct(x, y);
    }
  }

  /** The product of two fractions is a fraction. */
  lemma FractionProduct(x: real, y: real)
    requires 0.0 <= x <= 1.0 && 0.0 <= y <= 1.0
    ensures 0.0 <= Via(x, y) <= 1.0
  {
    if x != 0.0 && y != 0.0 {
      assert x * y <= x * 1.0;
    }
  }

  /** PFA coefficients lie in [0, 2 + 2n]: two one-hop fractions and two
      sums of `n` products of fractions. */
  lemma PfaWeightBounded(k: Kinetics, n: nat, a: nat, b: nat)
    requires HasSpecies(k, n) && a < n && b < n
    ensures 0.0 <= PfaWeight(k, n, a, b) <= 2.0 + 2.0 * n as real
  {
    var pro, con := OneHops(k, n, Positive), OneHops(k, n, Negative);
    forall x, y | 0 <= x < n && 0 <= y < n
      ensures 0.0 <= pro[x][y] <= 1.0 && 0.0 <= con[x][y] <= 1.0
    {
      OneHopBounded(k, n, Positive, x, y);
      OneHopBounded(k, n, Negative, x, y);
    }
    TwoHopBounded(pro, n, a, b, n);
    TwoHopBounded(con, n, a, b, n);
  }

  /** Two species converting into each other: reaction 0 turns species 0
      into species 1 and reaction 1 turns it back, both at rate 1. */
  function Exchange(): Kinetics {
    Kinetics([[0.0, 1.0], [1.0, 0.0]], [[1.0, 0.0], [0.0, 1.0]], [1.0, 1.0])
  }

  /** Unlike DRG and DRGEP, the PFA diagonal is not forced to 0: in
      `Exchange` each species reaches itself through the other. */
  lemma PfaDiagonalKept()
    ensures HasSpecies(Exchange(), 2)
    ensures PfaWeight(Exchange(), 2, 0, 0) == 2.0
    ensures DrgWeight(Exchange(), 2, 0, 0) == 0.0 && DrgepWeight(Exchange(), 2, 0, 0) == 0.0
  {
    var k := Exchange();
    assert Rate(k, 2, 0, 0) == 1.0 && Rate(k, 2, 0, 1) == -1.0;
    assert Rate(k, 2, 1, 0) == -1.0 && Rate(k, 2, 1, 1) == 1.0;
    assert Scale(k, 2, 0) == 1.0 && Scale(k, 2, 1) == 1.0;
    assert OneHop(k, 2, Positive, 0, 1) == 1.0 && OneHop(k, 2, Positive, 1, 0) == 1.0;
    assert OneHop(k, 2, Negative, 0, 1) == 1.0 && OneHop(k, 2, Negative, 1, 0) == 1.0;
  }

  // ---------------------------------------------------------------------
  // Handing the rows to the CSR builder

  /** The three coefficient kinds. */
  datatype Kind = DrgKind | DrgepKind | PfaKind

  /** The closed form of coefficient `a -> b` of kind `kind`. */
  function Weight(k: Kinetics, n: nat, kind: Kind, a: nat, b: nat): real
    requires HasSpecies(k, n) && a < n && b < n
  {
    match kind
    case DrgKind => DrgWeight(k, n, a, b)
    case DrgepKind => DrgepWeight(k, n, a, b)
    case PfaKind => PfaWeight(k, n, a, b)
  }

  /** The dense coefficient matrix of kind `kind`. */
  function Weights(k: Kinetics, n: nat, kind: Kind): (w: seq<seq<real>>)
    requires HasSpecies(k, n)
    ensures CsrBuilder.Dense(w, n)
  {
    seq(n, a requires 0 <= a < n => seq(n, b requires 0 <= b < n => Weight(k, n, kind, a, b)))
  }

  /** Without an active reaction every coefficient is 0. */
  lemma WeightWithoutActive(k: Kinetics, n: nat, kind: Kind, a: nat, b: nat)
    requires HasSpecies(k, n) && a < n && b < n && !AnyActive(k)
    ensures Weight(k, n, kind, a, b) == 0.0
  {
    forall x, y, part | 0 <= x < n && 0 <= y < n
      ensures Through(k, n, x, y, part) == 0.0 && Whole(k, n, x, part) == 0.0
    {
      TotalWithoutActive(k, n, x, Involving(y), part, |k.rates|);
      TotalWithoutActive(k, n, x, AllReactions, part, |k.rates|);
    }
    if kind == PfaKind {
      TwoHopZero(OneHops(k, n, Positive), n, a, b, n);
      TwoHopZero(OneHops(k, n, Negative), n, a, b, n);
    }
  }

  /** The two-hop sums of the zero matrix are 0. */
  lemma {:induction false} TwoHopZero(w: seq<seq<real>>, n: nat, a: nat, b: nat, j: nat)
    requires CsrBuilder.Dense(w, n) && a < n && b < n && j <= n
    requires forall x, y :: 0 <= x < n && 0 <= y < n ==> w[x][y] == 0.0
    ensures TwoHop(w, n, a, b, j) == 0.0
  {
    if j > 0 {
      TwoHopZero(w, n, a, b, j - 1);
    }
  }

  /** What a builder raises: the CSR layer's errors are re-raised as
      `RuntimeError`; the PFA builder can also fail on its own. */
  datatype BuildError = RuntimeError | UnboundLocalError

  /** A builder with the CSR layer as intended: `CSRAdjacencyMatrix(n)`,
      then, when some reaction is active, `add_row(w[a], a)` for
      `a = 0..n-1`, then `finalize()`. */
  function Build(k: Kinetics, n: nat, kind: Kind): (r: Result<CsrBuilder.Builder, BuildError>)
    requires HasSpecies(k, n)
  {
    if n >= CsrBuilder.SsizeLimit then Failure(RuntimeError)
    else if !AnyActive(k) then
      match CsrBuilder.Finalize(CsrBuilder.New(n))
      case Failure(_) => Failure(RuntimeError)
      case Success(b) => Success(b)
    else if kind == PfaKind && n == 0 then Failure(UnboundLocalError)
    else
      match CsrBuilder.AddRows(CsrBuilder.New(n), Weights(k, n, kind), n)
      case Failure(_) => Failure(RuntimeError)
      case Success(b) =>
        match CsrBuilder.Finalize(b)
        case Failure(_) => Failure(RuntimeError)
        case Success(b') => Success(b')
  }

  /** The same builder over the CSR layer as written. */
  function BuildAsWritten(k: Kinetics, n: nat, kind: Kind): (r: Result<CsrBuilder.Builder, BuildError>)
    requires HasSpecies(k, n)
  {
    if n >= CsrBuilder.SsizeLimit then Failure(RuntimeError)
    else if !AnyActive(k) then Success(CsrBuilder.FinalizeAsWritten(CsrBuilder.New(n)).0)
    else if kind == PfaKind && n == 0 then Failure(UnboundLocalError)
    else
      match CsrBuilder.AddRowsAsWritten(CsrBuilder.New(n), Weights(k, n, kind), n)
      case Failure(_) => Failure(RuntimeError)
      case Success(b) => Success(CsrBuilder.FinalizeAsWritten(b).0)
  }

  /** As written, every builder raises `RuntimeError` as soon as some
      reaction is active: the first row is refused by the CSR layer. */
  lemma BuildAsWrittenRaises(k: Kinetics, n: nat, kind: Kind)
    requires HasSpecies(k, n) && 0 < n < CsrBuilder.SsizeLimit && AnyActive(k)
    ensures BuildAsWritten(k, n, kind) == Failure(RuntimeError)
  {
    CsrBuilder.AddRowsAsWrittenRefused(Weights(k, n, kind), n, n);
  }

  /** A builder over an active mechanism reads back the weights. */
  lemma BuildReadsBackActive(k: Kinetics, n: nat, kind: Kind)
    requires HasSpecies(k, n) && n < CsrBuilder.SsizeLimit && AnyActive(k)
    requires kind == PfaKind ==> n > 0
    ensures Build(k, n, kind).Success?
    ensures var m := Build(k, n, kind).value.matrix;
            && Build(k, n, kind).value.finalized && Csr.Valid(m) && Csr.Size(m) == n
            && forall r, c :: 0 <= r < n && 0 <= c < n ==> Csr.At(m, r, c) == Success(Weight(k, n, kind, r, c))
  {
    CsrBuilder.BuildRoundTrip(Weights(k, n, kind), n);
  }

  /** Without an active reaction the builder returns the empty matrix, and
      every weight is 0. */
  lemma BuildReadsBackInactive(k: Kinetics, n: nat, kind: Kind)
    requires HasSpecies(k, n) && n < CsrBuilder.SsizeLimit && !AnyActive(k)
    ensures Build(k, n, kind).Success?
    ensures var m := Build(k, n, kind).value.matrix;
            && Build(k, n, kind).value.finalized && Csr.Valid(m) && Csr.Size(m) == n
            && forall r, c :: 0 <= r < n && 0 <= c < n ==> Csr.At(m, r, c) == Success(0.0)
  {
    CsrBuilder.NewBuilt(n);
    CsrBuilder.FinalizeRoundTrip(CsrBuilder.New(n), CsrBuilder.Zeros(n));
  }

  /** With the CSR layer as intended, a builder returns a finalized, valid
      matrix of the mechanism's size from which `at` reads back every
      coefficient; without an active reaction it is the empty matrix, whose
      every coefficient is 0 as the closed form says. */
  lemma BuildReadsBack(k: Kinetics, n: nat, kind: Kind)
    requires HasSpecies(k, n) && n < CsrBuilder.SsizeLimit
    requires kind == PfaKind && AnyActive(k) ==> n > 0
    ensures Build(k, n, kind).Success?
    ensures var m := Build(k, n, kind).value.matrix;
            && Build(k, n, kind).value.finalized && Csr.Valid(m) && Csr.Size(m) == n
            && forall r, c :: 0 <= r < n && 0 <= c < n ==> Csr.At(m, r, c) == Success(Weight(k, n, kind, r, c))
  {
    if AnyActive(k) {
      BuildReadsBackActive(k, n, kind);
    } else {
      BuildReadsBackInactive(k, n, kind);
      forall r, c | 0 <= r < n && 0 <= c < n
        ensures Weight(k, n, kind, r, c) == 0.0
      {
        WeightWithoutActive(k, n, kind, r, c);
      }
    }
  }
}
