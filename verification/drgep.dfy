/** `DRGEP`: for every source, a best-first search computes for each node
    the largest product of edge coefficients along a path from the source,
    dropping extensions whose product falls below the threshold; a node is
    kept when some source gives it a product at least the threshold. The
    search keeps its open nodes in a queue ordered by (path length, node
    index) and always expands the last, i.e. the largest. */
module Drgep {
  import opened Wrappers
  import opened Seqs
  import opened Csr
  import opened CsrIterators
  import ArrayBased
  import Algorithms

  // ---------------------------------------------------------------------
  // The ordered queue

  /** The comparison both queue searches use: `a` comes no later than `b`
      when its path length is smaller, or equal with an index no larger. */
  predicate Before(lengths: seq<real>, a: nat, b: nat)
    requires a < |lengths| && b < |lengths|
  {
    lengths[a] < lengths[b] || (lengths[a] == lengths[b] && a <= b)
  }

  /** `Before` as the predicate handed to the bisection. */
  function Order(lengths: seq<real>): (nat, nat) -> bool {
    (a: nat, b: nat) => a < |lengths| && b < |lengths| && Before(lengths, a, b)
  }

  /** The queue holds distinct nodes in ascending (length, index) order. */
  ghost predicate Ordered(q: seq<nat>, lengths: seq<real>) {
    && (forall i :: 0 <= i < |q| ==> q[i] < |lengths|)
    && (forall i, j :: 0 <= i < j < |q| ==> q[i] != q[j] && Before(lengths, q[i], q[j]))
  }

  /** Where the insertion search puts `node` (called as
      `bsearchLeftToInsert`, which the headers do not define, and read as
      the upper bound): the end of the prefix of the queue that comes no
      later than it. */
  function InsertPoint(q: seq<nat>, lengths: seq<real>, node: nat): nat {
    Algorithms.Bisect<nat>(q, node, Order(lengths), 0, |q|)
  }

  /** A queue ordered under the old lengths is split by the bisection
      predicate for a node whose length has only grown. */
  lemma RaisedPartitioned(q: seq<nat>, before: seq<real>, lengths: seq<real>, node: nat)
    requires Ordered(q, before) && node < |before| == |lengths|
    requires lengths == before[node := lengths[node]] && before[node] <= lengths[node]
    ensures Algorithms.Partitioned<nat>(q, node, Order(lengths), 0, |q|)
  {
    var c := Order(lengths);
    forall i, j | 0 <= i < j < |q| && !c(q[i], node)
      ensures !c(q[j], node)
    {
      assert q[i] != node;
    }
  }

  /** The bisection on such a queue: everything before the insertion point
      comes no later than `node`, everything from it on comes after. */
  lemma InsertPointSplits(q: seq<nat>, before: seq<real>, lengths: seq<real>, node: nat)
    requires Ordered(q, before) && node < |before| == |lengths|
    requires lengths == before[node := lengths[node]] && before[node] <= lengths[node]
    ensures InsertPoint(q, lengths, node) <= |q|
    ensures forall k :: 0 <= k < InsertPoint(q, lengths, node) ==> Before(lengths, q[k], node)
    ensures forall k :: InsertPoint(q, lengths, node) <= k < |q| ==> !Before(lengths, q[k], node)
  {
    RaisedPartitioned(q, before, lengths, node);
    var c := Order(lengths);
    var r := InsertPoint(q, lengths, node);
    assert forall k :: 0 <= k < r ==> c(q[k], node);
    assert forall k :: r <= k < |q| ==> !c(q[k], node);
  }

  /** `insertToOrderedQueue`: insert `node` at its insertion point; a full
      queue refuses. */
  function InsertToOrderedQueue(q: ArrayBased.Array<nat>, lengths: seq<real>, node: nat)
    : (r: Result<ArrayBased.Array<nat>, CppError>)
    ensures r.Failure? <==> |q.items| == q.capacity
    ensures r.Failure? ==> r.error == NoSpaceToInsert
    ensures r.Success? ==> r.value.capacity == q.capacity && |r.value.items| == |q.items| + 1
  {
    ArrayBased.Insert(q, InsertPoint(q.items, lengths, node), node)
  }

  /** Inserting a node that is not queued, after raising its length, keeps
      the queue ordered and adds exactly that node. */
  lemma InsertKeepsOrder(q: ArrayBased.Array<nat>, before: seq<real>, lengths: seq<real>, node: nat)
    requires Ordered(q.items, before) && node < |before| == |lengths| && node !in q.items
    requires lengths == before[node := lengths[node]] && before[node] <= lengths[node]
    requires |q.items| < q.capacity
    ensures InsertToOrderedQueue(q, lengths, node).Success?
    ensures var r := InsertToOrderedQueue(q, lengths, node).value.items;
            && Ordered(r, lengths)
            && multiset(r) == multiset(q.items) + multiset{node}
  {
    var s := q.items;
    var idx := InsertPoint(s, lengths, node);
    InsertPointSplits(s, before, lengths, node);
    var r := InsertToOrderedQueue(q, lengths, node).value.items;
    assert r == InsertAt(s, idx, node);
    InsertedOrdered(s, before, lengths, node, idx);
    assert s == s[..idx] + s[idx..];
  }

  /** The queue with `node` at its insertion point is ordered. */
  lemma InsertedOrdered(s: seq<nat>, before: seq<real>, lengths: seq<real>, node: nat, idx: nat)
    requires Ordered(s, before) && node < |before| == |lengths| && node !in s
    requires lengths == before[node := lengths[node]]
    requires idx <= |s|
    requires forall k :: 0 <= k < idx ==> Before(lengths, s[k], node)
    requires forall k :: idx <= k < |s| ==> !Before(lengths, s[k], node)
    ensures Ordered(InsertAt(s, idx, node), lengths)
  {
    var r := InsertAt(s, idx, node);
    forall k | 0 <= k < |s|
      ensures s[k] != node && lengths[s[k]] == before[s[k]]
    {
    }
    forall i, j | 0 <= i < j < |r|
      ensures r[i] != r[j] && Before(lengths, r[i], r[j])
    {
      if j < idx {
      } else if j == idx {
      } else if i < idx {
        assert Before(lengths, r[i], node);
      } else if i == idx {
        assert !Before(lengths, s[j - 1], node);
      } else {
      }
    }
  }

  /** The first position holding `node` at or after `i`: the exact search
      standing in for `bsearchLeft`. */
  function FindNode(q: seq<nat>, node: nat, i: nat): (r: Option<nat>)
    requires i <= |q|
    ensures r.None? <==> node !in q[i..]
    ensures r.Some? ==> i <= r.value < |q| && q[r.value] == node
    decreases |q| - i
  {
    if i == |q| then None
    else if q[i] == node then Some(i)
    else
      assert q[i..] == [q[i]] + q[i + 1..];
      FindNode(q, node, i + 1)
  }

  /** The queue after `updateQueue`'s `memmove`: the element at `cur` moves
      to position `idx - 1` and the elements between shift down by one. */
  function Moved(s: seq<nat>, cur: nat, idx: nat): (r: seq<nat>)
    requires cur < idx <= |s|
    ensures |r| == |s| && multiset(r) == multiset(s)
    ensures forall k :: 0 <= k < cur ==> r[k] == s[k]
    ensures forall k :: cur <= k < idx - 1 ==> r[k] == s[k + 1]
    ensures r[idx - 1] == s[cur]
    ensures forall k :: idx <= k < |s| ==> r[k] == s[k]
  {
    MovedPermutes(s, cur, idx);
    s[..cur] + s[cur + 1..idx] + [s[cur]] + s[idx..]
  }

  /** The move only permutes the queue. */
  lemma MovedPermutes(s: seq<nat>, cur: nat, idx: nat)
    requires cur < idx <= |s|
    ensures multiset(s[..cur] + s[cur + 1..idx] + [s[cur]] + s[idx..]) == multiset(s)
  {
    assert s == s[..cur] + [s[cur]] + s[cur + 1..idx] + s[idx..];
  }

  /** `updateQueue`: a node whose length was raised moves forward to just
      before its new insertion point. A zero length, or a node that is not
      queued, is refused. The bisection needs its range split by the
      comparison, as it is when only the node's own length grew. */
  function UpdateQueue(q: ArrayBased.Array<nat>, lengths: seq<real>, node: nat)
    : (r: Result<ArrayBased.Array<nat>, CppError>)
    requires node < |lengths|
    requires Algorithms.Partitioned<nat>(q.items, node, Order(lengths), 0, |q.items|)
    ensures r.Failure? <==> lengths[node] == 0.0 || node !in q.items
    ensures r.Failure? ==> r.error == InvalidArgument
    ensures r.Success? ==> r.value.capacity == q.capacity
    ensures r.Success? ==> multiset(r.value.items) == multiset(q.items)
  {
    var idx := InsertPoint(q.items, lengths, node);
    if lengths[node] == 0.0 then Failure(InvalidArgument)
    else
      match FindNode(q.items, node, 0)
      case None => Failure(InvalidArgument)
      case Some(cur) =>
        assert Order(lengths)(q.items[cur], node);
        if cur + 1 == idx then Success(q)
        else Success(q.(items := Moved(q.items, cur, idx)))
  }

  /** Raising the length of a queued node and updating the queue keeps it
      ordered and holding the same nodes. */
  lemma UpdateKeepsOrder(q: ArrayBased.Array<nat>, before: seq<real>, lengths: seq<real>, node: nat)
    requires Ordered(q.items, before) && node < |before| == |lengths| && node in q.items
    requires lengths == before[node := lengths[node]] && before[node] < lengths[node]
    requires 0.0 <= before[node]
    ensures Algorithms.Partitioned<nat>(q.items, node, Order(lengths), 0, |q.items|)
    ensures UpdateQueue(q, lengths, node).Success?
    ensures var r := UpdateQueue(q, lengths, node).value.items;
            Ordered(r, lengths) && multiset(r) == multiset(q.items)
  {
    RaisedPartitioned(q.items, before, lengths, node);
    InsertPointSplits(q.items, before, lengths, node);
    var s := q.items;
    var idx := InsertPoint(s, lengths, node);
    var cur := FindNode(s, node, 0).value;
    assert Before(lengths, s[cur], node);
    if cur + 1 < idx {
      MovedOrdered(s, before, lengths, node, cur, idx);
    } else {
      UnmovedOrdered(s, before, lengths, node, cur);
    }
  }

  /** A node already just before its insertion point stays put, and the
      queue is ordered under the raised lengths. */
  lemma UnmovedOrdered(s: seq<nat>, before: seq<real>, lengths: seq<real>, node: nat, cur: nat)
    requires Ordered(s, before) && node < |before| == |lengths|
    requires lengths == before[node := lengths[node]] && before[node] < lengths[node]
    requires cur < |s| && s[cur] == node
    requires forall k :: 0 <= k <= cur ==> Before(lengths, s[k], node)
    requires forall k :: cur < k < |s| ==> !Before(lengths, s[k], node)
    ensures Ordered(s, lengths)
  {
    forall i, j | 0 <= i < j < |s|
      ensures Before(lengths, s[i], s[j])
    {
      if j == cur {
        assert Before(lengths, s[i], node);
      } else if i == cur {
        assert !Before(lengths, s[j], node);
      }
    }
  }

  /** The moved queue is ordered under the raised lengths. */
  lemma MovedOrdered(s: seq<nat>, before: seq<real>, lengths: seq<real>, node: nat, cur: nat, idx: nat)
    requires Ordered(s, before) && node < |before| == |lengths|
    requires lengths == before[node := lengths[node]] && before[node] < lengths[node]
    requires cur < idx <= |s| && s[cur] == node
    requires forall k :: 0 <= k < idx ==> Before(lengths, s[k], node)
    requires forall k :: idx <= k < |s| ==> !Before(lengths, s[k], node)
    ensures Ordered(Moved(s, cur, idx), lengths)
  {
    var r := Moved(s, cur, idx);
    forall k | 0 <= k < |s| && k != cur
      ensures s[k] != node && lengths[s[k]] == before[s[k]]
    {
    }
    forall i, j | 0 <= i < j < |r|
      ensures r[i] != r[j] && Before(lengths, r[i], r[j])
    {
      if j == idx - 1 {
        if i < cur {
          assert r[i] == s[i] && Before(lengths, s[i], node);
        } else {
          assert r[i] == s[i + 1] && Before(lengths, s[i + 1], node);
        }
      } else if i == idx - 1 {
        assert r[j] == s[j] && !Before(lengths, s[j], node);
      } else {
        var a := if i < cur then i else if i < idx - 1 then i + 1 else i;
        var b := if j < cur then j else if j < idx - 1 then j + 1 else j;
        assert r[i] == s[a] && r[j] == s[b] && a < b;
      }
    }
  }

  // ---------------------------------------------------------------------
  // Paths and their products

  /** Every coefficient is nonnegative, as the interaction coefficients
      handed to DRGEP are (absolute values over a positive denominator). */
  ghost predicate Nonnegative(m: Matrix) {
    forall p :: 0 <= p < |m.coefs| ==> 0.0 <= m.coefs[p]
  }

  /** Every coefficient is at most 1. */
  ghost predicate AtMostOne(m: Matrix) {
    forall p :: 0 <= p < |m.coefs| ==> m.coefs[p] <= 1.0
  }

  /** Every element of `path` is a node. */
  ghost predicate OnNodes(m: Matrix, path: seq<nat>) {
    forall i :: 0 <= i < |path| ==> path[i] < Size(m)
  }

  /** The length of a path of length `x` extended by an edge of
      coefficient `c`. */
  function Extended(c: real, x: real): real {
    c * x
  }

  /** The product of the coefficients along `path`, accumulated as
      `Extended(coefficient, length so far)`; a single node has product 1. */
  ghost function Product(m: Matrix, path: seq<nat>): real
    requires Shaped(m) && OnNodes(m, path)
    decreases |path|
  {
    if |path| <= 1 then 1.0
    else Extended(Entry(m, path[|path| - 2], path[|path| - 1]), Product(m, path[..|path| - 1]))
  }

  /** A path the search can follow: every step is an edge the iterator
      yields, and no prefix's product falls below the threshold `t`. */
  ghost predicate Chain(m: Matrix, t: real, path: seq<nat>)
    requires Shaped(m)
    decreases |path|
  {
    && |path| > 0 && OnNodes(m, path)
    && (|path| >= 2 ==>
          && Chain(m, t, path[..|path| - 1])
          && Entry(m, path[|path| - 2], path[|path| - 1]) != 0.0
          && Product(m, path) >= t)
  }

  /** `path` is a chain from `s` to `v` of product exactly `x`. */
  ghost predicate WitnessedBy(m: Matrix, t: real, path: seq<nat>, s: nat, v: nat, x: real)
    requires Shaped(m)
  {
    Chain(m, t, path) && path[0] == s && path[|path| - 1] == v && Product(m, path) == x
  }

  /** Some chain from `s` to `v` has product exactly `x`. */
  ghost predicate Witnessed(m: Matrix, t: real, s: nat, v: nat, x: real)
    requires Shaped(m)
  {
    exists path :: WitnessedBy(m, t, path, s, v, x)
  }

  /** DRGEP keeps `v` for source `s`: a chain from `s` reaches `v` with
      product at least the threshold, or the threshold is not positive, so
      that even an unreached node's length 0 passes. */
  ghost predicate Kept(m: Matrix, t: real, s: nat, v: nat)
    requires Shaped(m)
  {
    t <= 0.0 || exists path {:trigger Chain(m, t, path)} :: Chain(m, t, path) && path[0] == s && path[|path| - 1] == v && Product(m, path) >= t
  }

  /** A stored coefficient of a nonnegative matrix, or an absent one, is
      nonnegative. */
  lemma EntryNonnegative(m: Matrix, r: nat, c: nat)
    requires Valid(m) && Nonnegative(m) && r < Size(m)
    ensures 0.0 <= Entry(m, r, c)
  {
    if Stored(m, r, c) {
      var p :| RowStart(m, r) <= p < RowStop(m, r) && m.cols[p] == c;
      EntryStored(m, r, p);
    } else {
      EntryAbsent(m, r, c);
    }
  }

  /** Products along a nonnegative matrix are nonnegative. */
  lemma {:induction false} ProductNonnegative(m: Matrix, path: seq<nat>)
    requires Valid(m) && Nonnegative(m) && OnNodes(m, path)
    ensures 0.0 <= Product(m, path)
    decreases |path|
  {
    if |path| > 1 {
      ProductNonnegative(m, path[..|path| - 1]);
      EntryNonnegative(m, path[|path| - 2], path[|path| - 1]);
      MulNonnegative(Entry(m, path[|path| - 2], path[|path| - 1]), Product(m, path[..|path| - 1]));
    }
  }

  lemma MulNonnegative(c: real, a: real)
    requires 0.0 <= c && 0.0 <= a
    ensures 0.0 <= Extended(c, a)
  {
  }

  /** A chain followed by one more yielded edge of coefficient `c` whose
      product reaches the threshold is a chain, and its product gains
      that coefficient. */
  lemma ChainExtend(m: Matrix, t: real, path: seq<nat>, w: nat, c: real)
    requires Shaped(m) && Chain(m, t, path) && w < Size(m)
    requires Entry(m, path[|path| - 1], w) == c && c != 0.0 && Extended(c, Product(m, path)) >= t
    ensures OnNodes(m, path + [w]) && Chain(m, t, path + [w])
    ensures (path + [w])[0] == path[0] && (path + [w])[|path + [w]| - 1] == w
    ensures Product(m, path + [w]) == Extended(c, Product(m, path))
  {
    var p := path + [w];
    assert p[..|p| - 1] == path;
  }

  // ---------------------------------------------------------------------
  // The search state

  /** The queue and lengths of one search: lengths are nonnegative, and the
      queue is ordered, has `n` slots and holds only nodes with a positive
      length. */
  ghost predicate QueueOk(m: Matrix, q: ArrayBased.Array<nat>, lengths: seq<real>) {
    && |lengths| == Size(m) && q.capacity == Size(m)
    && (forall v :: 0 <= v < |lengths| ==> 0.0 <= lengths[v])
    && Ordered(q.items, lengths)
    && (forall i :: 0 <= i < |q.items| ==> 0.0 < lengths[q.items[i]])
  }

  /** Every positive length is the product of a chain from `source`, whose
      own length is 1. */
  ghost predicate Sound(m: Matrix, t: real, source: nat, lengths: seq<real>)
    requires Valid(m) && |lengths| == Size(m)
  {
    && source < Size(m) && lengths[source] == 1.0
    && forall v {:trigger Witnessed(m, t, source, v, lengths[v])} ::
         0 <= v < Size(m) && 0.0 < lengths[v] ==> Witnessed(m, t, source, v, lengths[v])
  }

  /** Stored position `p` has been relaxed from a node of length `x`: the
      extended product is below the threshold or no better than the
      neighbour's length. */
  ghost predicate Relaxed(m: Matrix, t: real, lengths: seq<real>, p: nat, x: real)
    requires Valid(m) && p < |m.coefs| && |lengths| == Size(m)
  {
    Extended(m.coefs[p], x) < t || Extended(m.coefs[p], x) <= lengths[m.cols[p]]
  }

  /** The positions of `u`'s row before `hi` have been relaxed from `u`. */
  ghost predicate RowDone(m: Matrix, t: real, lengths: seq<real>, u: nat, hi: nat)
    requires Valid(m) && u < Size(m) && |lengths| == Size(m)
  {
    forall p :: RowStart(m, u) <= p < hi && p < RowStop(m, u) ==> Relaxed(m, t, lengths, p, lengths[u])
  }

  /** Every settled node (a positive length, no longer queued) other than
      `skip` has its whole row relaxed. */
  ghost predicate Closure(m: Matrix, t: real, q: ArrayBased.Array<nat>, lengths: seq<real>, skip: nat)
    requires Valid(m) && |lengths| == Size(m)
  {
    forall u {:trigger RowDone(m, t, lengths, u, RowStop(m, u))} ::
      0 <= u < Size(m) && u != skip && 0.0 < lengths[u] && u !in q.items ==> RowDone(m, t, lengths, u, RowStop(m, u))
  }

  /** Node `u` has been reached and is no longer queued. */
  ghost predicate Settled(q: ArrayBased.Array<nat>, lengths: seq<real>, u: nat) {
    u < |lengths| && 0.0 < lengths[u] && u !in q.items
  }

  /** No queued length exceeds `f` and no settled length is below it. */
  ghost predicate Frontier(m: Matrix, q: ArrayBased.Array<nat>, lengths: seq<real>, f: real)
    requires QueueOk(m, q, lengths)
  {
    && (forall i :: 0 <= i < |q.items| ==> lengths[q.items[i]] <= f)
    && (forall u: nat {:trigger Settled(q, lengths, u)} :: Settled(q, lengths, u) ==> f <= lengths[u])
  }

  /** The state while the row of the popped node `x`, of length `lx`, is
      relaxed. With coefficients at most 1, `lx` separates the queue from
      the settled nodes. */
  ghost predicate Expanding(m: Matrix, t: real, source: nat, x: nat, lx: real,
                            q: ArrayBased.Array<nat>, lengths: seq<real>)
    requires Valid(m)
  {
    && QueueOk(m, q, lengths) && Sound(m, t, source, lengths)
    && x < Size(m) && lengths[x] == lx && 0.0 < lx && x !in q.items && source !in q.items
    && Closure(m, t, q, lengths, x)
    && (AtMostOne(m) ==> Frontier(m, q, lengths, lx))
  }

  /** Twice the number of unreached nodes plus the queue length: each
      round of the search lowers it. */
  function Weight(q: ArrayBased.Array<nat>, lengths: seq<real>): nat {
    2 * Count(lengths, 0.0) + |q.items|
  }

  /** A node of length 0 is not queued, and there is room to queue it. */
  lemma QueueRoom(m: Matrix, q: ArrayBased.Array<nat>, lengths: seq<real>, nb: nat)
    requires QueueOk(m, q, lengths) && nb < Size(m) && lengths[nb] == 0.0
    ensures nb !in q.items && |q.items| < q.capacity
  {
    var s := q.items + [nb];
    forall i, j | 0 <= i < j < |s|
      ensures s[i] != s[j]
    {
      if j == |q.items| {
        assert 0.0 < lengths[q.items[i]];
      }
    }
    DistinctBelow(s, Size(m));
  }

  /** Raising lengths of other nodes keeps a relaxed row relaxed. */
  lemma RowDoneGrow(m: Matrix, t: real, lengths: seq<real>, lengths': seq<real>, u: nat, hi: nat)
    requires Valid(m) && u < Size(m) && |lengths| == |lengths'| == Size(m)
    requires forall v :: 0 <= v < Size(m) ==> lengths[v] <= lengths'[v]
    requires lengths'[u] == lengths[u]
    requires RowDone(m, t, lengths, u, hi)
    ensures RowDone(m, t, lengths', u, hi)
  {
    forall p | RowStart(m, u) <= p < hi && p < RowStop(m, u)
      ensures Relaxed(m, t, lengths', p, lengths'[u])
    {
      assert Relaxed(m, t, lengths, p, lengths[u]);
    }
  }

  /** Raising the length of a node that ends up queued keeps the settled
      nodes' rows relaxed. */
  lemma ClosureGrow(m: Matrix, t: real, q: ArrayBased.Array<nat>, lengths: seq<real>,
                    q': ArrayBased.Array<nat>, nb: nat, nl: real, skip: nat)
    requires Valid(m) && |lengths| == Size(m) && nb < Size(m) && lengths[nb] <= nl
    requires Closure(m, t, q, lengths, skip)
    requires nb in q'.items && forall v :: v in q.items ==> v in q'.items
    ensures Closure(m, t, q', lengths[nb := nl], skip)
  {
    var lengths' := lengths[nb := nl];
    forall u | 0 <= u < Size(m) && u != skip && 0.0 < lengths'[u] && u !in q'.items
      ensures RowDone(m, t, lengths', u, RowStop(m, u))
    {
      assert u != nb && u !in q.items;
      RowDoneGrow(m, t, lengths, lengths', u, RowStop(m, u));
    }
  }

  /** Extending a chain of the popped node by a yielded edge witnesses the
      neighbour's new length. */
  lemma WitnessExtend(m: Matrix, t: real, source: nat, x: nat, lx: real, p: nat)
    requires Valid(m) && x < Size(m) && Witnessed(m, t, source, x, lx)
    requires RowStart(m, x) <= p < RowStop(m, x) && m.coefs[p] != 0.0 && Extended(m.coefs[p], lx) >= t
    ensures Witnessed(m, t, source, m.cols[p], Extended(m.coefs[p], lx))
  {
    EntryStored(m, x, p);
    var path := PickWitness(m, t, source, x, lx);
    PathExtend(m, t, path, source, x, lx, m.cols[p], m.coefs[p]);
  }

  /** Every chain witnesses its own product. */
  lemma ChainWitnesses(m: Matrix, t: real, path: seq<nat>)
    requires Shaped(m) && Chain(m, t, path)
    ensures Witnessed(m, t, path[0], path[|path| - 1], Product(m, path))
  {
    assert WitnessedBy(m, t, path, path[0], path[|path| - 1], Product(m, path));
  }

  /** A chain that witnesses `Witnessed(m, t, s, v, x)`. */
  lemma PickWitness(m: Matrix, t: real, s: nat, v: nat, x: real) returns (path: seq<nat>)
    requires Shaped(m) && Witnessed(m, t, s, v, x)
    ensures WitnessedBy(m, t, path, s, v, x)
  {
    path :| WitnessedBy(m, t, path, s, v, x);
  }

  /** A chain from `s` to `v` of product `x` witnesses that length. */
  /** A chain from `s` to `v` of product `x` followed by one more stored
      edge of weight `c` witnesses the product `c * x`. */
  lemma PathExtend(m: Matrix, t: real, path: seq<nat>, s: nat, v: nat, x: real, w: nat, c: real)
    requires Shaped(m) && WitnessedBy(m, t, path, s, v, x) && w < Size(m)
    requires Entry(m, v, w) == c && c != 0.0 && Extended(c, x) >= t
    ensures Witnessed(m, t, s, w, Extended(c, x))
  {
    ChainExtend(m, t, path, w, c);
    assert WitnessedBy(m, t, path + [w], s, w, Extended(c, x));
  }

  /** Giving a node other than the source a witnessed length keeps every
      length witnessed. */
  lemma SoundUpdate(m: Matrix, t: real, source: nat, lengths: seq<real>, nb: nat, nl: real)
    requires Valid(m) && |lengths| == Size(m) && Sound(m, t, source, lengths)
    requires nb < Size(m) && nb != source && Witnessed(m, t, source, nb, nl)
    ensures Sound(m, t, source, lengths[nb := nl])
  {
    var lengths' := lengths[nb := nl];
    forall v | 0 <= v < Size(m) && 0.0 < lengths'[v]
      ensures Witnessed(m, t, source, v, lengths'[v])
    {
      if v != nb {
        assert Witnessed(m, t, source, v, lengths[v]);
      }
    }
  }

  /** A coefficient at most 1 does not lengthen a positive path. */
  lemma ScaleBelow(c: real, x: real, y: real)
    requires c <= 1.0 && 0.0 < x <= y
    ensures Extended(c, x) <= y
  {
  }

  /** A settled node is no shorter than the frontier. */
  lemma FrontierSettled(m: Matrix, q: ArrayBased.Array<nat>, lengths: seq<real>, f: real, u: nat)
    requires QueueOk(m, q, lengths) && Frontier(m, q, lengths, f)
    requires u < Size(m) && 0.0 < lengths[u] && u !in q.items
    ensures f <= lengths[u]
  {
    assert Settled(q, lengths, u);
  }

  /** With coefficients at most 1, a settled neighbour is never improved:
      its length is at least the popped one's, which the edge cannot
      raise. */
  lemma SettledSkipped(m: Matrix, t: real, source: nat, x: nat, lx: real,
                       q: ArrayBased.Array<nat>, lengths: seq<real>, p: nat)
    requires Valid(m) && Expanding(m, t, source, x, lx, q, lengths)
    requires RowStart(m, x) <= p < RowStop(m, x)
    requires m.cols[p] !in q.items && 0.0 < lengths[m.cols[p]]
    ensures AtMostOne(m) ==> Extended(m.coefs[p], lx) <= lengths[m.cols[p]]
  {
    if AtMostOne(m) {
      assert m.coefs[p] <= 1.0;
      FrontierSettled(m, q, lengths, lx, m.cols[p]);
      ScaleBelow(m.coefs[p], lx, lengths[m.cols[p]]);
    }
  }

  // ---------------------------------------------------------------------
  // Relaxing one edge

  /** After `nb` was raised, `q'` holds the old queue's nodes and `nb`, in
      order under the new lengths. */
  ghost predicate Requeued(q: ArrayBased.Array<nat>, q': ArrayBased.Array<nat>, lengths': seq<real>, nb: nat) {
    && q'.capacity == q.capacity
    && Ordered(q'.items, lengths')
    && (forall v :: v in q'.items <==> v in q.items || v == nb)
  }

  /** Raising a length and requeueing the node keeps the queue well formed. */
  lemma RaiseQueueOk(m: Matrix, q: ArrayBased.Array<nat>, lengths: seq<real>,
                     q': ArrayBased.Array<nat>, nb: nat, nl: real)
    requires QueueOk(m, q, lengths) && nb < Size(m) && lengths[nb] < nl
    requires Requeued(q, q', lengths[nb := nl], nb)
    ensures QueueOk(m, q', lengths[nb := nl])
  {
    var lengths' := lengths[nb := nl];
    forall i | 0 <= i < |q'.items|
      ensures 0.0 < lengths'[q'.items[i]]
    {
      var v := q'.items[i];
      assert v in q'.items;
      if v != nb {
        var j :| 0 <= j < |q.items| && q.items[j] == v;
      }
    }
  }

  /** Raising a node to at most the frontier keeps the frontier. */
  lemma RaiseFrontier(m: Matrix, q: ArrayBased.Array<nat>, lengths: seq<real>,
                      q': ArrayBased.Array<nat>, nb: nat, nl: real, f: real)
    requires QueueOk(m, q, lengths) && nb < Size(m) && lengths[nb] < nl <= f
    requires Requeued(q, q', lengths[nb := nl], nb) && QueueOk(m, q', lengths[nb := nl])
    requires Frontier(m, q, lengths, f)
    ensures Frontier(m, q', lengths[nb := nl], f)
  {
    var lengths' := lengths[nb := nl];
    forall i | 0 <= i < |q'.items|
      ensures lengths'[q'.items[i]] <= f
    {
      var v := q'.items[i];
      assert v in q'.items;
      if v != nb {
        var j :| 0 <= j < |q.items| && q.items[j] == v;
      }
    }
    forall u: nat | Settled(q', lengths', u)
      ensures f <= lengths'[u]
    {
      FrontierSettled(m, q, lengths, f, u);
    }
  }

  /** One more position whose relaxation holds extends a relaxed prefix of
      the row. */
  lemma RowDoneExtend(m: Matrix, t: real, lengths: seq<real>, x: nat, p: nat)
    requires Valid(m) && x < Size(m) && |lengths| == Size(m)
    requires RowStart(m, x) <= p < RowStop(m, x) && RowDone(m, t, lengths, x, p)
    requires Relaxed(m, t, lengths, p, lengths[x])
    ensures RowDone(m, t, lengths, x, p + 1)
  {
  }

  /** Positions holding a zero coefficient are relaxed from any length,
      since lengths are never negative. */
  lemma ZerosRelaxed(m: Matrix, t: real, lengths: seq<real>, x: nat, lo: nat, hi: nat)
    requires Valid(m) && x < Size(m) && |lengths| == Size(m)
    requires forall v :: 0 <= v < |lengths| ==> 0.0 <= lengths[v]
    requires RowStart(m, x) <= lo <= hi <= RowStop(m, x) && RowDone(m, t, lengths, x, lo)
    requires forall p :: lo <= p < hi ==> m.coefs[p] == 0.0
    ensures RowDone(m, t, lengths, x, hi)
  {
    forall p | RowStart(m, x) <= p < hi && p < RowStop(m, x)
      ensures Relaxed(m, t, lengths, p, lengths[x])
    {
      if lo <= p {
        assert Extended(m.coefs[p], lengths[x]) == 0.0;
        assert 0.0 <= lengths[m.cols[p]];
      }
    }
  }

  /** Raising the neighbour at position `p` of the popped node's row to the
      extended product keeps every positive length witnessed. */
  lemma RaiseSound(m: Matrix, t: real, source: nat, x: nat, lx: real, lengths: seq<real>, p: nat)
    requires Valid(m) && |lengths| == Size(m) && Sound(m, t, source, lengths)
    requires x < Size(m) && lengths[x] == lx && 0.0 < lx
    requires RowStart(m, x) <= p < RowStop(m, x) && m.coefs[p] != 0.0 && t <= Extended(m.coefs[p], lx)
    requires m.cols[p] != source
    ensures Sound(m, t, source, lengths[m.cols[p] := Extended(m.coefs[p], lx)])
  {
    assert Witnessed(m, t, source, x, lengths[x]);
    WitnessExtend(m, t, source, x, lx, p);
    SoundUpdate(m, t, source, lengths, m.cols[p], Extended(m.coefs[p], lx));
  }

  /** With coefficients at most 1 the raised length stays within the
      frontier `lx`, so the frontier holds for the requeued queue. */
  lemma RaiseKeepsFrontier(m: Matrix, q: ArrayBased.Array<nat>, lengths: seq<real>,
                           q': ArrayBased.Array<nat>, lx: real, p: nat)
    requires Valid(m) && p < |m.coefs| && QueueOk(m, q, lengths) && 0.0 < lx
    requires lengths[m.cols[p]] < Extended(m.coefs[p], lx)
    requires Requeued(q, q', lengths[m.cols[p] := Extended(m.coefs[p], lx)], m.cols[p])
    requires QueueOk(m, q', lengths[m.cols[p] := Extended(m.coefs[p], lx)])
    requires AtMostOne(m) ==> Frontier(m, q, lengths, lx)
    ensures AtMostOne(m) ==> Frontier(m, q', lengths[m.cols[p] := Extended(m.coefs[p], lx)], lx)
  {
    if AtMostOne(m) {
      assert m.coefs[p] <= 1.0;
      ScaleBelow(m.coefs[p], lx, lx);
      RaiseFrontier(m, q, lengths, q', m.cols[p], Extended(m.coefs[p], lx), lx);
    }
  }

  /** Raising the neighbour at position `p` of the popped node's row to the
      extended product, and requeueing it, keeps the expansion state and
      relaxes position `p`. */
  lemma RaiseKeeps(m: Matrix, t: real, source: nat, x: nat, lx: real, q: ArrayBased.Array<nat>,
                   lengths: seq<real>, p: nat, q': ArrayBased.Array<nat>)
    requires Valid(m) && Expanding(m, t, source, x, lx, q, lengths)
    requires RowStart(m, x) <= p < RowStop(m, x) && m.coefs[p] != 0.0 && RowDone(m, t, lengths, x, p)
    requires lengths[m.cols[p]] < Extended(m.coefs[p], lx) && t <= Extended(m.coefs[p], lx)
    requires m.cols[p] != source && m.cols[p] != x
    requires Requeued(q, q', lengths[m.cols[p] := Extended(m.coefs[p], lx)], m.cols[p])
    ensures Expanding(m, t, source, x, lx, q', lengths[m.cols[p] := Extended(m.coefs[p], lx)])
    ensures RowDone(m, t, lengths[m.cols[p] := Extended(m.coefs[p], lx)], x, p + 1)
  {
    var nb, nl := m.cols[p], Extended(m.coefs[p], lx);
    var lengths' := lengths[nb := nl];
    RaiseQueueOk(m, q, lengths, q', nb, nl);
    RaiseSound(m, t, source, x, lx, lengths, p);
    ClosureGrow(m, t, q, lengths, q', nb, nl, x);
    RaiseKeepsFrontier(m, q, lengths, q', lx, p);
    RowDoneGrow(m, t, lengths, lengths', x, p);
    RowDoneExtend(m, t, lengths', x, p);
  }

  /** Inserting an unreached node raised to `nl` succeeds and requeues it. */
  lemma InsertRequeues(m: Matrix, q: ArrayBased.Array<nat>, lengths: seq<real>, nb: nat, nl: real)
    requires QueueOk(m, q, lengths) && nb < Size(m) && lengths[nb] == 0.0 && 0.0 < nl
    ensures var r := InsertToOrderedQueue(q, lengths[nb := nl], nb);
            && r.Success? && Requeued(q, r.value, lengths[nb := nl], nb)
            && |r.value.items| == |q.items| + 1
  {
    var lengths' := lengths[nb := nl];
    QueueRoom(m, q, lengths, nb);
    InsertKeepsOrder(q, lengths, lengths', nb);
    var q' := InsertToOrderedQueue(q, lengths', nb).value;
    forall v
      ensures v in q'.items <==> v in q.items || v == nb
    {
      calc {
        v in q'.items;
        v in multiset(q'.items);
        v in multiset(q.items) + multiset{nb};
      }
    }
  }

  /** Moving a queued node raised to `nl` succeeds and requeues it. */
  lemma UpdateRequeues(m: Matrix, q: ArrayBased.Array<nat>, lengths: seq<real>, nb: nat, nl: real)
    requires QueueOk(m, q, lengths) && nb < Size(m) && nb in q.items && lengths[nb] < nl
    ensures && Algorithms.Partitioned<nat>(q.items, nb, Order(lengths[nb := nl]), 0, |q.items|)
            && var r := UpdateQueue(q, lengths[nb := nl], nb);
            && r.Success? && Requeued(q, r.value, lengths[nb := nl], nb)
            && |r.value.items| == |q.items| && 0.0 < lengths[nb]
  {
    var i :| 0 <= i < |q.items| && q.items[i] == nb;
    var lengths' := lengths[nb := nl];
    UpdateKeepsOrder(q, lengths, lengths', nb);
    var q' := UpdateQueue(q, lengths', nb).value;
    forall v
      ensures v in q'.items <==> v in q.items || v == nb
    {
      calc {
        v in q'.items;
        v in multiset(q'.items);
        v in multiset(q.items);
      }
    }
    assert |q'.items| == |multiset(q'.items)|;
  }

  /** What relaxing the popped node `x`'s row up to position `hi`
      achieves, from queue `q` and `lengths`: on success the expansion
      state holds for the new queue and lengths, the positions before `hi`
      are relaxed, no length falls and the weight does not grow; the only
      failure is `invalid_argument`, and it needs a coefficient above 1. */
  ghost predicate Relaxes(m: Matrix, t: real, source: nat, x: nat, lx: real, hi: nat,
                          q: ArrayBased.Array<nat>, lengths: seq<real>,
                          r: Result<(ArrayBased.Array<nat>, seq<real>), CppError>)
    requires Valid(m) && |lengths| == Size(m)
  {
    && (r.Success? ==>
          && Expanding(m, t, source, x, lx, r.value.0, r.value.1)
          && RowDone(m, t, r.value.1, x, hi)
          && Weight(r.value.0, r.value.1) <= Weight(q, lengths)
          && forall v :: 0 <= v < Size(m) ==> lengths[v] <= r.value.1[v])
    && (r.Failure? ==> r.error == InvalidArgument && !AtMostOne(m))
  }

  /** The neighbour is not improved, or the product is below the threshold:
      nothing changes. */
  lemma SkipRelaxes(m: Matrix, t: real, source: nat, x: nat, lx: real, p: nat,
                    q: ArrayBased.Array<nat>, lengths: seq<real>)
    requires Valid(m) && Expanding(m, t, source, x, lx, q, lengths)
    requires RowStart(m, x) <= p < RowStop(m, x) && RowDone(m, t, lengths, x, p)
    requires Extended(m.coefs[p], lx) <= lengths[m.cols[p]] || Extended(m.coefs[p], lx) < t
    ensures Relaxes(m, t, source, x, lx, p + 1, q, lengths, Success((q, lengths)))
  {
    RowDoneExtend(m, t, lengths, x, p);
  }

  /** An unreached or queued neighbour gets the product and is requeued
      as `q'`: by insertion, which lengthens the queue by one, or by a
      move, which keeps its length. */
  lemma RaiseRelaxes(m: Matrix, t: real, source: nat, x: nat, lx: real, p: nat,
                     q: ArrayBased.Array<nat>, lengths: seq<real>, q': ArrayBased.Array<nat>)
    requires Valid(m) && Expanding(m, t, source, x, lx, q, lengths)
    requires RowStart(m, x) <= p < RowStop(m, x) && m.coefs[p] != 0.0 && RowDone(m, t, lengths, x, p)
    requires lengths[m.cols[p]] < Extended(m.coefs[p], lx) && t <= Extended(m.coefs[p], lx)
    requires Requeued(q, q', lengths[m.cols[p] := Extended(m.coefs[p], lx)], m.cols[p])
    requires || (lengths[m.cols[p]] == 0.0 && |q'.items| == |q.items| + 1)
             || (m.cols[p] in q.items && |q'.items| == |q.items|)
    ensures Relaxes(m, t, source, x, lx, p + 1, q, lengths, Success((q', lengths[m.cols[p] := Extended(m.coefs[p], lx)])))
  {
    var nb, nl := m.cols[p], Extended(m.coefs[p], lx);
    if nb in q.items {
      var i :| 0 <= i < |q.items| && q.items[i] == nb;
      assert 0.0 < lengths[nb];
    }
    RaiseKeeps(m, t, source, x, lx, q, lengths, p, q');
    CountUpdate(lengths, nb, nl, 0.0);
  }

  /** A settled neighbour would be improved: `updateQueue` does not find it
      and throws, which coefficients at most 1 rule out. */
  lemma SettledRelaxes(m: Matrix, t: real, source: nat, x: nat, lx: real, p: nat,
                       q: ArrayBased.Array<nat>, lengths: seq<real>)
    requires Valid(m) && Expanding(m, t, source, x, lx, q, lengths)
    requires RowStart(m, x) <= p < RowStop(m, x)
    requires m.cols[p] !in q.items && 0.0 < lengths[m.cols[p]] < Extended(m.coefs[p], lx)
    ensures Relaxes(m, t, source, x, lx, p + 1, q, lengths, Failure(InvalidArgument))
  {
    SettledSkipped(m, t, source, x, lx, q, lengths, p);
  }

  /** The branch after a length was raised from `lengths[nb]` to `nl`: a
      node whose old length was 0 is inserted, any other is moved. The move
      fails exactly when the node is no longer queued. */
  method Requeue(m: Matrix, q: ArrayBased.Array<nat>, lengths: seq<real>, nb: nat, nl: real)
    returns (r: Result<ArrayBased.Array<nat>, CppError>)
    requires QueueOk(m, q, lengths) && nb < Size(m) && lengths[nb] < nl
    ensures r.Success? ==> Requeued(q, r.value, lengths[nb := nl], nb)
    ensures r.Success? ==> || (lengths[nb] == 0.0 && |r.value.items| == |q.items| + 1)
                           || (nb in q.items && |r.value.items| == |q.items|)
    ensures r.Failure? <==> 0.0 < lengths[nb] && nb !in q.items
    ensures r.Failure? ==> r.error == InvalidArgument
  {
    var lengths' := lengths[nb := nl];
    if lengths[nb] == 0.0 {
      InsertRequeues(m, q, lengths, nb, nl);
      return InsertToOrderedQueue(q, lengths', nb);
    }
    RaisedPartitioned(q.items, lengths, lengths', nb);
    if nb in q.items {
      UpdateRequeues(m, q, lengths, nb, nl);
    }
    return UpdateQueue(q, lengths', nb);
  }

  /** One pass of the inner loop of `calcPathLengths` at position `p` of
      the popped node `x`'s row: extend the path to the neighbour, skip it
      when the product is no better than its length or below the
      threshold, and otherwise record the new length and insert or move the
      neighbour in the queue. Moving a node that is no longer queued is the
      `invalid_argument` of `updateQueue`. */
  method RelaxOne(m: Matrix, t: real, ghost source: nat, x: nat, lx: real, p: nat,
                  q: ArrayBased.Array<nat>, lengths: seq<real>)
    returns (r: Result<(ArrayBased.Array<nat>, seq<real>), CppError>)
    requires Valid(m) && Expanding(m, t, source, x, lx, q, lengths)
    requires RowStart(m, x) <= p < RowStop(m, x) && m.coefs[p] != 0.0 && RowDone(m, t, lengths, x, p)
    ensures Relaxes(m, t, source, x, lx, p + 1, q, lengths, r)
  {
    var nb, nl := m.cols[p], Extended(m.coefs[p], lx);
    if nl <= lengths[nb] || nl < t {
      SkipRelaxes(m, t, source, x, lx, p, q, lengths);
      return Success((q, lengths));
    }
    var u := Requeue(m, q, lengths, nb, nl);
    if u.Failure? {
      SettledRelaxes(m, t, source, x, lx, p, q, lengths);
      return Failure(u.error);
    }
    RaiseRelaxes(m, t, source, x, lx, p, q, lengths, u.value);
    return Success((u.value, lengths[nb := nl]));
  }

  // ---------------------------------------------------------------------
  // Expanding a popped node

  /** The inner loop of `calcPathLengths`: walk the popped node `x`'s row
      with a neighbours iterator from column 0 and relax every position it
      stops on. Positions it steps over hold a zero coefficient, which
      cannot improve a length. The iterator starts on the row's first stored
      entry even when that coefficient is 0; its product 0 is then no longer
      than the neighbour's length, so the loop's first `continue` steps
      past it. */
  method Expand(m: Matrix, t: real, ghost source: nat, x: nat, q: ArrayBased.Array<nat>, lengths: seq<real>)
    returns (r: Result<(ArrayBased.Array<nat>, seq<real>), CppError>)
    requires Valid(m) && x < Size(m) && |lengths| == Size(m)
    requires Expanding(m, t, source, x, lengths[x], q, lengths)
    ensures Relaxes(m, t, source, x, lengths[x], RowStop(m, x), q, lengths, r)
  {
    var lx := lengths[x];
    var it := NewIterAsWritten(m, x, 0).value;
    if !it.stopped && GetIterCoef(m, it).value == 0.0 {
      it := Next(m, it);
    }
    ZerosRelaxed(m, t, lengths, x, RowStart(m, x), it.idx);
    var q', lengths' := q, lengths;
    while !it.stopped
      invariant IterValid(m, it) && Steady(m, it) && it.from == x
      invariant Relaxes(m, t, source, x, lx, it.idx, q, lengths, Success((q', lengths')))
      decreases RowStop(m, x) - it.idx
    {
      var s := RelaxOne(m, t, source, x, lx, it.idx, q', lengths');
      if s.Failure? {
        return Failure(s.error);
      }
      ghost var at := it.idx;
      it := Next(m, it);
      RelaxesCompose(m, t, source, x, lx, at, at + 1, q, lengths, q', lengths', s.value.0, s.value.1);
      ZerosRelaxed(m, t, s.value.1, x, at + 1, it.idx);
      q', lengths' := s.value.0, s.value.1;
    }
    return Success((q', lengths'));
  }

  /** Relaxing from an intermediate state composes with the progress made
      so far. */
  lemma RelaxesCompose(m: Matrix, t: real, source: nat, x: nat, lx: real, lo: nat, hi: nat,
                       q: ArrayBased.Array<nat>, lengths: seq<real>,
                       q1: ArrayBased.Array<nat>, lengths1: seq<real>,
                       q2: ArrayBased.Array<nat>, lengths2: seq<real>)
    requires Valid(m) && |lengths| == Size(m) && |lengths1| == Size(m)
    requires Relaxes(m, t, source, x, lx, lo, q, lengths, Success((q1, lengths1)))
    requires Relaxes(m, t, source, x, lx, hi, q1, lengths1, Success((q2, lengths2)))
    ensures Relaxes(m, t, source, x, lx, hi, q, lengths, Success((q2, lengths2)))
  {
  }

  // ---------------------------------------------------------------------
  // The search from one source

  /** The state between two pops: the queue is well formed, every positive
      length is witnessed, the source is only queued before its first pop,
      every settled node has its row relaxed, and with coefficients at most
      1 the last (longest) queued length is the frontier. */
  ghost predicate Searching(m: Matrix, t: real, source: nat, q: ArrayBased.Array<nat>, lengths: seq<real>)
    requires Valid(m)
  {
    && QueueOk(m, q, lengths) && Sound(m, t, source, lengths)
    && (source in q.items ==> q.items == [source])
    && Closure(m, t, q, lengths, Size(m))
    && (AtMostOne(m) && |q.items| > 0 ==> Frontier(m, q, lengths, lengths[q.items[|q.items| - 1]]))
  }

  /** The lengths a finished search leaves: nonnegative, witnessed, and
      every reached node's row relaxed. */
  ghost predicate Found(m: Matrix, t: real, source: nat, lengths: seq<real>)
    requires Valid(m)
  {
    && |lengths| == Size(m)
    && (forall v :: 0 <= v < |lengths| ==> 0.0 <= lengths[v])
    && Sound(m, t, source, lengths)
    && forall u {:trigger RowDone(m, t, lengths, u, RowStop(m, u))} ::
         0 <= u < Size(m) && 0.0 < lengths[u] ==> RowDone(m, t, lengths, u, RowStop(m, u))
  }

  /** The source alone is queued, with length 1. */
  lemma SearchStart(m: Matrix, t: real, source: nat)
    requires Valid(m) && source < Size(m)
    ensures Searching(m, t, source, ArrayBased.Array([source], Size(m)), seq(Size(m), _ => 0.0)[source := 1.0])
  {
    var lengths := seq(Size(m), _ => 0.0)[source := 1.0];
    ChainWitnesses(m, t, [source]);
    assert Witnessed(m, t, source, source, lengths[source]);
    forall v | 0 <= v < Size(m) && 0.0 < lengths[v]
      ensures Witnessed(m, t, source, v, lengths[v])
    {
      assert v == source;
    }
  }

  /** Dropping the last queued node keeps the queue well formed, and that
      node is no longer queued. */
  lemma PopQueue(m: Matrix, q: ArrayBased.Array<nat>, lengths: seq<real>, q1: ArrayBased.Array<nat>, x: nat)
    requires QueueOk(m, q, lengths)
    requires q.items == q1.items + [x] && q1.capacity == q.capacity
    ensures QueueOk(m, q1, lengths) && x < |lengths| && 0.0 < lengths[x] && x !in q1.items
  {
    var n := |q1.items|;
    assert q.items[n] == x;
    assert forall i :: 0 <= i < n ==> q1.items[i] == q.items[i];
    forall i | 0 <= i < n
      ensures q1.items[i] != x
    {
      assert q.items[i] != q.items[n];
    }
  }

  /** Every settled node other than the popped one still has its row
      relaxed. */
  lemma PopClosure(m: Matrix, t: real, q: ArrayBased.Array<nat>, lengths: seq<real>,
                   q1: ArrayBased.Array<nat>, x: nat)
    requires Valid(m) && |lengths| == Size(m) && Closure(m, t, q, lengths, Size(m))
    requires q.items == q1.items + [x]
    ensures Closure(m, t, q1, lengths, x)
  {
    forall u | 0 <= u < Size(m) && u != x && 0.0 < lengths[u] && u !in q1.items
      ensures RowDone(m, t, lengths, u, RowStop(m, u))
    {
      assert u !in q.items;
    }
  }

  /** The popped node's length still separates the rest of the queue from
      the settled nodes. */
  lemma PopFrontier(m: Matrix, q: ArrayBased.Array<nat>, lengths: seq<real>, q1: ArrayBased.Array<nat>, x: nat)
    requires QueueOk(m, q, lengths) && QueueOk(m, q1, lengths) && x < |lengths|
    requires q.items == q1.items + [x]
    requires Frontier(m, q, lengths, lengths[x])
    ensures Frontier(m, q1, lengths, lengths[x])
  {
    var n := |q1.items|;
    assert q.items[n] == x;
    forall i | 0 <= i < n
      ensures lengths[q1.items[i]] <= lengths[x]
    {
      assert q1.items[i] == q.items[i];
      assert Before(lengths, q.items[i], q.items[n]);
    }
    forall u: nat | Settled(q1, lengths, u)
      ensures lengths[x] <= lengths[u]
    {
      if u != x {
        assert Settled(q, lengths, u);
      }
    }
  }

  /** Popping the last, longest queued node starts its expansion and lowers
      the weight. */
  lemma PopStep(m: Matrix, t: real, source: nat, q: ArrayBased.Array<nat>, lengths: seq<real>,
                q1: ArrayBased.Array<nat>, x: nat)
    requires Valid(m) && Searching(m, t, source, q, lengths)
    requires q.items == q1.items + [x] && q1.capacity == q.capacity
    ensures x < Size(m) && Expanding(m, t, source, x, lengths[x], q1, lengths)
    ensures Weight(q1, lengths) < Weight(q, lengths)
  {
    PopQueue(m, q, lengths, q1, x);
    PopClosure(m, t, q, lengths, q1, x);
    if source in q.items {
      assert |q1.items| == 0;
    } else {
      assert source !in q1.items;
    }
    if AtMostOne(m) {
      assert q.items[|q.items| - 1] == x;
      PopFrontier(m, q, lengths, q1, x);
    }
  }

  /** A fully relaxed row returns the search to its between-pops state. */
  lemma ExpandDone(m: Matrix, t: real, source: nat, x: nat, lx: real,
                   q: ArrayBased.Array<nat>, lengths: seq<real>)
    requires Valid(m) && Expanding(m, t, source, x, lx, q, lengths)
    requires RowDone(m, t, lengths, x, RowStop(m, x))
    ensures Searching(m, t, source, q, lengths)
  {
    if AtMostOne(m) && |q.items| > 0 {
      var n := |q.items| - 1;
      var f := lengths[q.items[n]];
      forall i | 0 <= i < |q.items|
        ensures lengths[q.items[i]] <= f
      {
        if i < n {
          assert Before(lengths, q.items[i], q.items[n]);
        }
      }
      forall u: nat | Settled(q, lengths, u)
        ensures f <= lengths[u]
      {
        assert f <= lx;
      }
    }
  }

  /** An empty queue ends the search. */
  lemma SearchFound(m: Matrix, t: real, source: nat, q: ArrayBased.Array<nat>, lengths: seq<real>)
    requires Valid(m) && Searching(m, t, source, q, lengths) && |q.items| == 0
    ensures Found(m, t, source, lengths)
  {
    forall u | 0 <= u < Size(m) && 0.0 < lengths[u]
      ensures RowDone(m, t, lengths, u, RowStop(m, u))
    {
      assert u !in q.items;
    }
  }

  // ---------------------------------------------------------------------
  // What a finished search computes

  lemma MulMonotone(c: real, a: real, b: real)
    requires 0.0 < c && a <= b
    ensures Extended(c, a) <= Extended(c, b)
  {
  }

  lemma MulPositive(c: real, a: real)
    requires 0.0 < c && 0.0 < a
    ensures 0.0 < Extended(c, a)
  {
  }

  /** An edge out of a node whose row is relaxed cannot carry a product
      past the threshold beyond its head's length. */
  lemma RelaxedEdge(m: Matrix, t: real, lengths: seq<real>, u: nat, w: nat, a: real)
    requires Valid(m) && Nonnegative(m) && |lengths| == Size(m) && u < Size(m) && w < Size(m)
    requires RowDone(m, t, lengths, u, RowStop(m, u))
    requires 0.0 < a <= lengths[u] && Entry(m, u, w) != 0.0 && t <= Extended(Entry(m, u, w), a)
    ensures 0.0 < Extended(Entry(m, u, w), a) <= lengths[w]
  {
    if !Stored(m, u, w) {
      EntryAbsent(m, u, w);
    }
    var p :| RowStart(m, u) <= p < RowStop(m, u) && m.cols[p] == w;
    EntryStored(m, u, p);
    var c := m.coefs[p];
    assert 0.0 < c;
    assert Relaxed(m, t, lengths, p, lengths[u]);
    MulMonotone(c, a, lengths[u]);
    MulPositive(c, a);
      }

  /** Optimality: on a nonnegative matrix no chain from the source has a
      product above the length the search found for its end, and every
      chain's product is positive. */
  lemma {:induction false} ChainBounded(m: Matrix, t: real, source: nat, lengths: seq<real>, path: seq<nat>)
    requires Valid(m) && Nonnegative(m) && Found(m, t, source, lengths)
    requires Chain(m, t, path) && path[0] == source
    ensures 0.0 < Product(m, path) <= lengths[path[|path| - 1]]
    decreases |path|
  {
    if |path| > 1 {
      var pre := path[..|path| - 1];
      assert pre[0] == source;
      ChainBounded(m, t, source, lengths, pre);
      var u, w := path[|path| - 2], path[|path| - 1];
      assert pre[|pre| - 1] == u;
      RelaxedEdge(m, t, lengths, u, w, Product(m, pre));
    }
  }

  /** A found length at least the threshold is a kept node. */
  lemma LengthKept(m: Matrix, t: real, source: nat, lengths: seq<real>, v: nat)
    requires Valid(m) && Found(m, t, source, lengths) && v < Size(m) && t <= lengths[v]
    ensures Kept(m, t, source, v)
  {
    if 0.0 < t {
      assert Witnessed(m, t, source, v, lengths[v]);
      var path := PickWitness(m, t, source, v, lengths[v]);
    }
  }

  /** On a nonnegative matrix a kept node's found length reaches the
      threshold. */
  lemma KeptLength(m: Matrix, t: real, source: nat, lengths: seq<real>, v: nat)
    requires Valid(m) && Nonnegative(m) && Found(m, t, source, lengths) && v < Size(m)
    requires Kept(m, t, source, v)
    ensures t <= lengths[v]
  {
    if 0.0 < t {
      var path :| Chain(m, t, path) && path[0] == source && path[|path| - 1] == v && Product(m, path) >= t;
      ChainBounded(m, t, source, lengths, path);
    }
  }

  /** The source of a search is kept whenever the threshold is at most 1,
      by the one-node chain. */
  lemma SourceKept(m: Matrix, t: real, source: nat)
    requires Shaped(m) && source < Size(m) && t <= 1.0
    ensures Kept(m, t, source, source)
  {
    var path := [source];
    assert Chain(m, t, path) && Product(m, path) == 1.0;
  }

  // ---------------------------------------------------------------------
  // The search and the reduction

  /** One round of the search loop: pop the most recently queued node and
      relax its row. */
  method SearchStep(m: Matrix, t: real, ghost source: nat, q: ArrayBased.Array<nat>, lengths: seq<real>)
    returns (r: Result<(ArrayBased.Array<nat>, seq<real>), CppError>)
    requires Valid(m) && Searching(m, t, source, q, lengths) && |q.items| > 0
    ensures r.Success? ==> Searching(m, t, source, r.value.0, r.value.1)
    ensures r.Success? ==> Weight(r.value.0, r.value.1) < Weight(q, lengths)
    ensures r.Failure? ==> r.error == InvalidArgument && !AtMostOne(m)
  {
    var (q1, x) := ArrayBased.Remove(q, |q.items| - 1).value;
    assert q.items == q1.items + [x];
    PopStep(m, t, source, q, lengths, q1, x);
    r := Expand(m, t, source, x, q1, lengths);
    if r.Success? {
      ExpandDone(m, t, source, x, lengths[x], r.value.0, r.value.1);
    }
  }

  /** `calcPathLengths` from a fresh queue of capacity `Size(m)` and all
      lengths 0: queue the source with length 1, then pop the last queued
      node and expand it until the queue is empty. Appending to a queue of
      capacity 0 throws first; writing the length of a source past the
      size throws next; a raised node that is no longer queued throws from
      `updateQueue`. A finished search has found, for every node, the best
      product of a chain from the source that stays at or above the
      threshold. */
  method CalcPathLengths(m: Matrix, from: nat, t: real) returns (r: Result<seq<real>, CppError>)
    requires Valid(m)
    ensures Size(m) == 0 ==> r == Failure(NoSpaceToInsert)
    ensures 0 < Size(m) <= from ==> r == Failure(OutOfRange)
    ensures from < Size(m) && r.Failure? ==> r.error == InvalidArgument && !AtMostOne(m)
    ensures r.Success? ==> Found(m, t, from, r.value)
    ensures r.Success? ==> r.value[from] == 1.0
    ensures r.Success? ==> forall v :: 0 <= v < Size(m) && t <= r.value[v] ==> Kept(m, t, from, v)
    ensures r.Success? && Nonnegative(m) ==>
              forall v :: 0 <= v < Size(m) && Kept(m, t, from, v) ==> t <= r.value[v]
  {
    var q := ArrayBased.Array([], Size(m));
    var a := ArrayBased.Append(q, from);
    if a.Failure? {
      return Failure(a.error);
    }
    if from >= Size(m) {
      return Failure(OutOfRange);
    }
    q := a.value;
    var lengths := seq(Size(m), _ => 0.0)[from := 1.0];
    SearchStart(m, t, from);
    while |q.items| > 0
      invariant Searching(m, t, from, q, lengths)
      decreases Weight(q, lengths)
    {
      var e := SearchStep(m, t, from, q, lengths);
      if e.Failure? {
        return Failure(e.error);
      }
      q, lengths := e.value.0, e.value.1;
    }
    SearchFound(m, t, from, q, lengths);
    FoundKept(m, t, from, lengths);
    return Success(lengths);
  }

  /** Both directions between found lengths and kept nodes. */
  lemma FoundKept(m: Matrix, t: real, source: nat, lengths: seq<real>)
    requires Valid(m) && Found(m, t, source, lengths)
    ensures forall v :: 0 <= v < Size(m) && t <= lengths[v] ==> Kept(m, t, source, v)
    ensures Nonnegative(m) ==> forall v :: 0 <= v < Size(m) && Kept(m, t, source, v) ==> t <= lengths[v]
  {
    forall v | 0 <= v < Size(m) && t <= lengths[v]
      ensures Kept(m, t, source, v)
    {
      LengthKept(m, t, source, lengths, v);
    }
    if Nonnegative(m) {
      forall v | 0 <= v < Size(m) && Kept(m, t, source, v)
        ensures t <= lengths[v]
      {
        KeptLength(m, t, source, lengths, v);
      }
    }
  }

  /** The marking loop after one search: a node is marked once its length
      reaches the threshold, and stays marked. */
  function Mark(marked: seq<bool>, lengths: seq<real>, t: real): (r: seq<bool>)
    requires |lengths| == |marked|
    ensures |r| == |marked|
    ensures forall v :: 0 <= v < |r| ==> (r[v] <==> marked[v] || t <= lengths[v])
  {
    seq(|marked|, v requires 0 <= v < |marked| => marked[v] || t <= lengths[v])
  }

  /** `DRGEP::run`: search from each source in turn and mark every node
      whose length reaches the threshold. The first failing search's error
      is the result. On success, a marked node is kept for some source,
      and on a nonnegative matrix every node kept for some source is
      marked. */
  method Run(m: Matrix, sources: seq<nat>, t: real) returns (r: Result<seq<bool>, CppError>)
    requires Valid(m)
    ensures r.Success? ==> |r.value| == Size(m)
    ensures r.Success? ==> forall i :: 0 <= i < |sources| ==> sources[i] < Size(m)
    ensures r.Success? ==>
              forall v :: 0 <= v < Size(m) && r.value[v] ==> exists i :: 0 <= i < |sources| && Kept(m, t, sources[i], v)
    ensures r.Success? && Nonnegative(m) ==>
              forall v, i :: 0 <= v < Size(m) && 0 <= i < |sources| && Kept(m, t, sources[i], v) ==> r.value[v]
    ensures r.Success? ==> forall i :: 0 <= i < |sources| && t <= 1.0 ==> r.value[sources[i]]
    ensures r.Failure? && r.error != InvalidArgument ==>
              && r.error == (if Size(m) == 0 then NoSpaceToInsert else OutOfRange)
              && exists i :: 0 <= i < |sources| && Size(m) <= sources[i]
    ensures r.Failure? && r.error == InvalidArgument ==> !AtMostOne(m)
    ensures AtMostOne(m) && (forall i :: 0 <= i < |sources| ==> sources[i] < Size(m)) ==> r.Success?
  {
    var marked := seq(Size(m), _ => false);
    for i := 0 to |sources|
      invariant |marked| == Size(m)
      invariant forall j :: 0 <= j < i ==> sources[j] < Size(m)
      invariant forall v :: 0 <= v < Size(m) && marked[v] ==> exists j :: 0 <= j < i && Kept(m, t, sources[j], v)
      invariant Nonnegative(m) ==>
                  forall v, j :: 0 <= v < Size(m) && 0 <= j < i && Kept(m, t, sources[j], v) ==> marked[v]
      invariant forall j :: 0 <= j < i && t <= 1.0 ==> marked[sources[j]]
    {
      var l := CalcPathLengths(m, sources[i], t);
      if l.Failure? {
        return Failure(l.error);
      }
      marked := Mark(marked, l.value, t);
    }
    return Success(marked);
  }
}
