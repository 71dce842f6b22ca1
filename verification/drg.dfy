/** `DRG`: zero every edge whose coefficient is below the threshold, then
    mark every node reachable from the sources by an iterative depth-first
    search whose stack holds each open node with its neighbour iterator.
    The reachability bitmap is modelled by its sequence of bits. */
module Drg {
  import opened Wrappers
  import opened Seqs
  import opened Csr
  import opened CsrIterators
  import ArrayBased

  // ---------------------------------------------------------------------
  // Graph view
  //
  // The search reads a row through the neighbour iterator that
  // `getNeighboursIterator(u, 0)` opens.  As written, its constructor rests
  // on the row's first stored entry without skipping a zero coefficient,
  // and `operator++` then visits the nonzero ones; as intended the
  // constructor skips zeros too.  `asWritten` selects between the two.

  /** Position `p` of row `u` is offered as a neighbour: a nonzero
      coefficient, or, as written, the row's first stored entry whatever its
      coefficient. */
  ghost predicate Yields(m: Matrix, asWritten: bool, u: nat, p: nat)
    requires Valid(m) && u < Size(m) && p < |m.coefs|
  {
    m.coefs[p] != 0.0 || (asWritten && p == RowStart(m, u))
  }

  /** The iterator yields edge `u -> v`. */
  ghost predicate Edge(m: Matrix, asWritten: bool, u: nat, v: nat)
    requires Valid(m) && u < Size(m)
  {
    exists p :: RowStart(m, u) <= p < RowStop(m, u) && m.cols[p] == v && Yields(m, asWritten, u, p)
  }

  /** As intended, the edges the iterator yields are exactly the nonzero
      entries of the dense view. */
  lemma EdgeIsEntry(m: Matrix, u: nat, v: nat)
    requires Valid(m) && u < Size(m)
    ensures Edge(m, false, u, v) <==> Entry(m, u, v) != 0.0
  {
    if Edge(m, false, u, v) {
      var p :| RowStart(m, u) <= p < RowStop(m, u) && m.cols[p] == v && m.coefs[p] != 0.0;
      EntryStored(m, u, p);
    } else if Stored(m, u, v) {
      var p :| RowStart(m, u) <= p < RowStop(m, u) && m.cols[p] == v;
      EntryStored(m, u, p);
    } else {
      EntryAbsent(m, u, v);
    }
  }

  /** As written, the edges are the nonzero entries plus, for every nonempty
      row, its first stored column. */
  lemma EdgeAsWritten(m: Matrix, u: nat, v: nat)
    requires Valid(m) && u < Size(m)
    ensures Edge(m, true, u, v) <==>
              || Entry(m, u, v) != 0.0
              || (RowStart(m, u) < RowStop(m, u) && m.cols[RowStart(m, u)] == v)
  {
    EdgeIsEntry(m, u, v);
    if Edge(m, true, u, v) && !Edge(m, false, u, v) {
      var p :| RowStart(m, u) <= p < RowStop(m, u) && m.cols[p] == v && Yields(m, true, u, p);
      assert p == RowStart(m, u);
    }
    if RowStart(m, u) < RowStop(m, u) && m.cols[RowStart(m, u)] == v {
      assert Yields(m, true, u, RowStart(m, u));
    }
  }

  /** A walk along yielded edges. */
  ghost predicate IsPath(m: Matrix, asWritten: bool, path: seq<nat>)
    requires Valid(m)
  {
    && |path| > 0
    && (forall i :: 0 <= i < |path| ==> path[i] < Size(m))
    && (forall i :: 0 <= i < |path| - 1 ==> Edge(m, asWritten, path[i], path[i + 1]))
  }

  /** `v` can be reached from `s`. */
  ghost predicate Reachable(m: Matrix, asWritten: bool, s: nat, v: nat)
    requires Valid(m)
  {
    exists path :: IsPath(m, asWritten, path) && path[0] == s && path[|path| - 1] == v
  }

  /** Every node reaches itself. */
  lemma ReachSelf(m: Matrix, asWritten: bool, s: nat)
    requires Valid(m) && s < Size(m)
    ensures Reachable(m, asWritten, s, s)
  {
    assert IsPath(m, asWritten, [s]);
  }

  /** A reachable node's yielded neighbours are reachable. */
  lemma ReachStep(m: Matrix, asWritten: bool, s: nat, u: nat, v: nat)
    requires Valid(m) && u < Size(m) && v < Size(m) && Reachable(m, asWritten, s, u) && Edge(m, asWritten, u, v)
    ensures Reachable(m, asWritten, s, v)
  {
    var path :| IsPath(m, asWritten, path) && path[0] == s && path[|path| - 1] == u;
    var path' := path + [v];
    assert forall i :: 0 <= i < |path| ==> path'[i] == path[i];
    assert IsPath(m, asWritten, path');
  }

  /** Every yielded neighbour of `u` is marked. */
  ghost predicate EdgesMarked(m: Matrix, asWritten: bool, u: nat, marks: seq<bool>)
    requires Valid(m) && u < Size(m) && |marks| == Size(m)
  {
    forall p :: RowStart(m, u) <= p < RowStop(m, u) && Yields(m, asWritten, u, p) ==> marks[m.cols[p]]
  }

  /** The marked nodes are closed under yielded edges. */
  ghost predicate Closed(m: Matrix, asWritten: bool, marks: seq<bool>)
    requires Valid(m)
  {
    |marks| == Size(m)
    && forall u {:trigger EdgesMarked(m, asWritten, u, marks)} ::
         0 <= u < Size(m) && marks[u] ==> EdgesMarked(m, asWritten, u, marks)
  }

  /** A closed set holding `s` holds everything `s` reaches. */
  lemma ClosedHoldsReach(m: Matrix, asWritten: bool, marks: seq<bool>, s: nat, v: nat)
    requires Valid(m) && Closed(m, asWritten, marks) && s < Size(m) && marks[s]
    ensures Reachable(m, asWritten, s, v) ==> v < Size(m) && marks[v]
  {
    if Reachable(m, asWritten, s, v) {
      var path :| IsPath(m, asWritten, path) && path[0] == s && path[|path| - 1] == v;
      ClosedHoldsPath(m, asWritten, marks, path, |path| - 1);
    }
  }

  lemma {:induction false} ClosedHoldsPath(m: Matrix, asWritten: bool, marks: seq<bool>, path: seq<nat>, k: nat)
    requires Valid(m) && Closed(m, asWritten, marks) && IsPath(m, asWritten, path) && marks[path[0]] && k < |path|
    ensures marks[path[k]]
  {
    if k > 0 {
      ClosedHoldsPath(m, asWritten, marks, path, k - 1);
      var u := path[k - 1];
      assert Edge(m, asWritten, u, path[k]);
      var p :| RowStart(m, u) <= p < RowStop(m, u) && m.cols[p] == path[k] && Yields(m, asWritten, u, p);
      assert EdgesMarked(m, asWritten, u, marks);
    }
  }

  // ---------------------------------------------------------------------
  // Removing weak edges

  /** A coefficient below the threshold becomes 0. */
  function Cut(x: real, t: real): real {
    if x < t then 0.0 else x
  }

  /** The matrix with every coefficient below `t` zeroed and nothing else
      changed. */
  function Thresholded(m: Matrix, t: real): (r: Matrix)
    ensures r.rows == m.rows && r.cols == m.cols && |r.coefs| == |m.coefs|
    ensures forall p :: 0 <= p < |m.coefs| ==> r.coefs[p] == Cut(m.coefs[p], t)
  {
    Matrix(m.rows, m.cols, seq(|m.coefs|, p requires 0 <= p < |m.coefs| => Cut(m.coefs[p], t)))
  }

  /** Thresholding keeps the matrix valid and acts on the dense view
      entry by entry. */
  lemma ThresholdedEntries(m: Matrix, t: real)
    requires Valid(m)
    ensures Valid(Thresholded(m, t))
    ensures forall u, v :: 0 <= u < Size(m) ==> Entry(Thresholded(m, t), u, v) == Cut(Entry(m, u, v), t)
  {
    var m' := Thresholded(m, t);
    assert forall r :: 0 <= r < |m.rows| ==> RowSorted(m, r) == RowSorted(m', r);
    forall u, v | 0 <= u < Size(m)
      ensures Entry(m', u, v) == Cut(Entry(m, u, v), t)
    {
      if Stored(m, u, v) {
        var p :| RowStart(m, u) <= p < RowStop(m, u) && m.cols[p] == v;
        EntryStored(m, u, p);
        EntryStored(m', u, p);
      } else {
        EntryAbsent(m, u, v);
        EntryAbsent(m', u, v);
      }
    }
  }

  /** A second run on the already thresholded matrix acts as one run at the
      larger threshold: an edge zeroed once stays zero. */
  lemma ThresholdTwice(m: Matrix, t1: real, t2: real)
    ensures Thresholded(Thresholded(m, t1), t2) == Thresholded(m, if t1 < t2 then t2 else t1)
  {
    var a := Thresholded(Thresholded(m, t1), t2);
    var b := Thresholded(m, if t1 < t2 then t2 else t1);
    assert a.coefs == b.coefs;
  }

  /** Entries before position `f` are thresholded; the rest are as in `m`. */
  ghost predicate CutBelow(m: Matrix, m': Matrix, t: real, f: nat)
    requires |m'.coefs| == |m.coefs|
  {
    forall p :: 0 <= p < |m.coefs| ==> m'.coefs[p] == if p < f then Cut(m.coefs[p], t) else m.coefs[p]
  }

  /** Where rows up to `from` end. */
  function Done(m: Matrix, from: nat): nat
    requires from <= |m.rows|
  {
    if from == 0 then 0 else m.rows[from - 1]
  }

  /** Moving the frontier over zero coefficients changes nothing. */
  lemma CutOverZeros(m: Matrix, m': Matrix, t: real, f: nat, g: nat)
    requires |m'.coefs| == |m.coefs| && CutBelow(m, m', t, f) && f <= g <= |m.coefs|
    requires forall p :: f <= p < g ==> m.coefs[p] == 0.0
    ensures CutBelow(m, m', t, g)
  {
  }

  /** The inner loop of `removeEdges` for one row.  `replaceNeighboursIterator`
      installs the iterator `getNeighboursIterator(from, 0)` would return,
      which starts on the row's first stored entry. */
  method CutRow(m: Matrix, m0: Matrix, t: real, from: nat) returns (m': Matrix)
    requires Valid(m0) && m0.rows == m.rows && m0.cols == m.cols && |m0.coefs| == |m.coefs|
    requires from < Size(m) && CutBelow(m, m0, t, Done(m, from))
    ensures Valid(m') && m'.rows == m.rows && m'.cols == m.cols && |m'.coefs| == |m.coefs|
    ensures CutBelow(m, m', t, Done(m, from + 1))
  {
    m' := m0;
    var it := NewIterAsWritten(m', from, 0).value;
    while !it.stopped
      invariant IterValid(m', it) && it.from == from && (it.stopped <==> it.idx == RowStop(m', from))
      invariant Valid(m') && m'.rows == m.rows && m'.cols == m.cols && |m'.coefs| == |m.coefs|
      invariant CutBelow(m, m', t, it.idx)
      decreases RowStop(m', from) - it.idx
    {
      m', it := CutStep(m, m', t, from, it);
    }
  }

  /** One round of the inner loop: cut the coefficient under the iterator
      if it is below the threshold, then step.  Cutting stops the iterator,
      and `operator++` resumes it at the next nonzero coefficient. */
  method CutStep(m: Matrix, m0: Matrix, t: real, from: nat, it0: Iter) returns (m': Matrix, it: Iter)
    requires IterValid(m0, it0) && it0.from == from && !it0.stopped
    requires Valid(m0) && m0.rows == m.rows && m0.cols == m.cols && |m0.coefs| == |m.coefs|
    requires CutBelow(m, m0, t, it0.idx)
    ensures IterValid(m', it) && it.from == from && (it.stopped <==> it.idx == RowStop(m', from))
    ensures Valid(m') && m'.rows == m.rows && m'.cols == m.cols && |m'.coefs| == |m.coefs|
    ensures CutBelow(m, m', t, it.idx)
    ensures RowStop(m', from) - it.idx < RowStop(m0, from) - it0.idx
  {
    m', it := m0, it0;
    if GetIterCoef(m', it).value < t {
      var (m2, it2, _) := IterSetCoef(m', it, 0.0).value;
      m', it := m2, it2;
    }
    assert CutBelow(m, m', t, it0.idx + 1);
    it := Next(m', it);
    CutOverZeros(m, m', t, it0.idx + 1, it.idx);
  }

  /** `removeEdges`: for every row, walk the neighbour iterator and set each
      coefficient below the threshold to 0.  The offsets and stored columns
      stay; the result is the thresholded matrix. */
  method RemoveEdges(m: Matrix, t: real) returns (m': Matrix)
    requires Valid(m)
    ensures Valid(m') && m' == Thresholded(m, t)
  {
    m' := m;
    var from := 0;
    while from < Size(m)
      invariant from <= Size(m)
      invariant Valid(m') && m'.rows == m.rows && m'.cols == m.cols && |m'.coefs| == |m.coefs|
      invariant CutBelow(m, m', t, Done(m, from))
    {
      m' := CutRow(m, m', t, from);
      from := from + 1;
    }
    assert m'.coefs == Thresholded(m, t).coefs;
  }

  /** After thresholding, the intended iterator yields `u -> v` exactly when
      the original coefficient is nonzero and not below the threshold. */
  lemma EdgeAfterThreshold(m: Matrix, t: real, u: nat, v: nat)
    requires Valid(m) && u < Size(m)
    ensures Valid(Thresholded(m, t))
    ensures Edge(Thresholded(m, t), false, u, v) <==> Entry(m, u, v) != 0.0 && t <= Entry(m, u, v)
  {
    ThresholdedEntries(m, t);
    EdgeIsEntry(Thresholded(m, t), u, v);
  }

  /** Raising the threshold only removes edges. */
  lemma EdgeMonotone(m: Matrix, asWritten: bool, t1: real, t2: real, u: nat, v: nat)
    requires Valid(m) && u < Size(m) && t1 <= t2
    requires Valid(Thresholded(m, t1)) && Valid(Thresholded(m, t2))
    requires Edge(Thresholded(m, t2), asWritten, u, v)
    ensures Edge(Thresholded(m, t1), asWritten, u, v)
  {
    var m1, m2 := Thresholded(m, t1), Thresholded(m, t2);
    var p :| RowStart(m2, u) <= p < RowStop(m2, u) && m2.cols[p] == v && Yields(m2, asWritten, u, p);
    if m2.coefs[p] != 0.0 {
      assert m1.coefs[p] == m.coefs[p];
    }
    assert Yields(m1, asWritten, u, p);
  }

  // ---------------------------------------------------------------------
  // The depth-first search

  /** A stack entry: an open node and its neighbour iterator. */
  type Frame = (nat, Iter)

  /** The iterator is stopped exactly at its row end and otherwise rests on
      a position the search reads. */
  ghost predicate Resting(m: Matrix, asWritten: bool, it: Iter)
    requires IterValid(m, it)
  {
    && (it.stopped <==> it.idx == RowStop(m, it.from))
    && (!it.stopped ==> Yields(m, asWritten, it.from, it.idx))
  }

  /** The iterator `checkAchievables` opens for node `u` with
      `getNeighboursIterator(u, 0)`: it has passed no neighbour yet. */
  function Start(m: Matrix, asWritten: bool, u: nat): (r: Iter)
    requires Valid(m) && u < Size(m)
    ensures IterValid(m, r) && Resting(m, asWritten, r) && r.from == u
    ensures forall p :: RowStart(m, u) <= p < r.idx ==> !Yields(m, asWritten, u, p)
  {
    if asWritten then NewIterAsWritten(m, u, 0).value else NewIter(m, u, 0).value
  }

  /** Some stack frame holds `u`. */
  ghost predicate OnStack(s: seq<Frame>, u: nat) {
    exists k :: 0 <= k < |s| && s[k].0 == u
  }

  /** Every yielded neighbour before the cursor is marked. */
  ghost predicate Scanned(m: Matrix, asWritten: bool, it: Iter, marks: seq<bool>)
    requires IterValid(m, it) && |marks| == Size(m)
  {
    forall p :: RowStart(m, it.from) <= p < it.idx && Yields(m, asWritten, it.from, p) ==> marks[m.cols[p]]
  }

  /** A stack frame: a node marked by this search, with an iterator over its
      own row that has passed only marked neighbours. */
  ghost predicate FrameOk(m: Matrix, asWritten: bool, marked: seq<bool>, marks: seq<bool>, f: Frame)
    requires Valid(m) && |marked| == |marks| == Size(m)
  {
    && f.0 < Size(m) && marks[f.0] && !marked[f.0]
    && IterValid(m, f.1) && Resting(m, asWritten, f.1) && f.1.from == f.0
    && Scanned(m, asWritten, f.1, marks)
  }

  /** Every frame is well formed. */
  ghost predicate FramesOk(m: Matrix, asWritten: bool, marked: seq<bool>, marks: seq<bool>, s: seq<Frame>)
    requires Valid(m) && |marked| == |marks| == Size(m)
  {
    forall k :: 0 <= k < |s| ==> FrameOk(m, asWritten, marked, marks, s[k])
  }

  /** No node is open twice. */
  ghost predicate DistinctFrames(s: seq<Frame>) {
    forall i, j :: 0 <= i < j < |s| ==> s[i].0 != s[j].0
  }

  /** Every marked node off the stack has all its neighbours marked. */
  ghost predicate OffStackClosed(m: Matrix, asWritten: bool, marks: seq<bool>, s: seq<Frame>)
    requires Valid(m) && |marks| == Size(m)
  {
    forall u {:trigger EdgesMarked(m, asWritten, u, marks)} ::
      0 <= u < Size(m) && marks[u] && !OnStack(s, u) ==> EdgesMarked(m, asWritten, u, marks)
  }

  /** Every node this search marked is reachable from its source. */
  ghost predicate Sound(m: Matrix, asWritten: bool, source: nat, marked: seq<bool>, marks: seq<bool>)
    requires Valid(m) && |marked| == |marks| == Size(m)
  {
    forall v {:trigger Reachable(m, asWritten, source, v)} ::
      0 <= v < Size(m) && marks[v] && !marked[v] ==> Reachable(m, asWritten, source, v)
  }

  /** The invariant of `checkAchievables(source)` started from the marks
      `marked`: the frames are distinct open nodes, every marked node off the
      stack has all its neighbours marked, and every newly marked node is
      reachable from `source`. */
  ghost predicate DfsInv(m: Matrix, asWritten: bool, source: nat, marked: seq<bool>, marks: seq<bool>, s: seq<Frame>)
    requires Valid(m)
  {
    && source < Size(m) && |marked| == Size(m) && |marks| == Size(m)
    && marks[source]
    && (forall v :: 0 <= v < Size(m) && marked[v] ==> marks[v])
    && FramesOk(m, asWritten, marked, marks, s)
    && DistinctFrames(s)
    && OffStackClosed(m, asWritten, marks, s)
    && Sound(m, asWritten, source, marked, marks)
  }

  /** Marking more nodes keeps "all neighbours marked". */
  lemma EdgesMarkedGrow(m: Matrix, asWritten: bool, u: nat, marks: seq<bool>, marks': seq<bool>)
    requires Valid(m) && u < Size(m) && |marks| == |marks'| == Size(m)
    requires forall v :: 0 <= v < Size(m) && marks[v] ==> marks'[v]
    requires EdgesMarked(m, asWritten, u, marks)
    ensures EdgesMarked(m, asWritten, u, marks')
  {
    forall p | RowStart(m, u) <= p < RowStop(m, u) && Yields(m, asWritten, u, p)
      ensures marks'[m.cols[p]]
    {
      assert marks[m.cols[p]];
    }
  }

  /** The state right after the source is marked and pushed. */
  lemma DfsStart(m: Matrix, asWritten: bool, source: nat, marked: seq<bool>)
    requires Valid(m) && source < Size(m) && Closed(m, asWritten, marked) && !marked[source]
    ensures DfsInv(m, asWritten, source, marked, marked[source := true], [(source, Start(m, asWritten, source))])
  {
    var marks := marked[source := true];
    var s := [(source, Start(m, asWritten, source))];
    assert FrameOk(m, asWritten, marked, marks, s[0]);
    forall u | 0 <= u < Size(m) && marks[u] && !OnStack(s, u)
      ensures EdgesMarked(m, asWritten, u, marks)
    {
      assert u != source;
      EdgesMarkedGrow(m, asWritten, u, marked, marks);
    }
    ReachSelf(m, asWritten, source);
  }

  /** `checkAchievables`' inner loop: step the top iterator past neighbours
      that are already marked. */
  method SkipMarked(m: Matrix, asWritten: bool, it: Iter, marks: seq<bool>) returns (r: Iter)
    requires IterValid(m, it) && Resting(m, asWritten, it) && |marks| == Size(m)
    ensures IterValid(m, r) && Resting(m, asWritten, r) && r.from == it.from && it.idx <= r.idx
    ensures forall p :: it.idx <= p < r.idx && Yields(m, asWritten, it.from, p) ==> marks[m.cols[p]]
    ensures !r.stopped ==> !marks[m.cols[r.idx]]
  {
    r := it;
    while !r.stopped && marks[GetTo(m, r).value]
      invariant IterValid(m, r) && Resting(m, asWritten, r) && r.from == it.from && it.idx <= r.idx
      invariant forall p :: it.idx <= p < r.idx && Yields(m, asWritten, it.from, p) ==> marks[m.cols[p]]
      decreases RowStop(m, r.from) - r.idx
    {
      r := Next(m, r);
    }
  }

  /** A stopped iterator that has passed only marked neighbours leaves its
      node with all neighbours marked. */
  lemma StoppedScanned(m: Matrix, asWritten: bool, marks: seq<bool>, it0: Iter, it: Iter)
    requires Valid(m) && |marks| == Size(m)
    requires IterValid(m, it0) && Scanned(m, asWritten, it0, marks)
    requires IterValid(m, it) && Resting(m, asWritten, it) && it.stopped && it.from == it0.from && it0.idx <= it.idx
    requires forall p :: it0.idx <= p < it.idx && Yields(m, asWritten, it.from, p) ==> marks[m.cols[p]]
    ensures EdgesMarked(m, asWritten, it.from, marks)
  {
  }

  /** Popping a node whose neighbours are all marked keeps the nodes off the
      stack closed. */
  lemma PopKeepsClosed(m: Matrix, asWritten: bool, marks: seq<bool>, s: seq<Frame>)
    requires Valid(m) && |marks| == Size(m) && |s| > 0 && s[|s| - 1].0 < Size(m)
    requires DistinctFrames(s) && OffStackClosed(m, asWritten, marks, s)
    requires EdgesMarked(m, asWritten, s[|s| - 1].0, marks)
    ensures OffStackClosed(m, asWritten, marks, s[..|s| - 1])
  {
    var top := |s| - 1;
    var s' := s[..top];
    forall w | 0 <= w < Size(m) && marks[w] && !OnStack(s', w)
      ensures EdgesMarked(m, asWritten, w, marks)
    {
      if w != s[top].0 {
        forall k | 0 <= k < |s|
          ensures s[k].0 != w
        {
          if k < top {
            assert s'[k] == s[k];
          }
        }
      }
    }
  }

  /** The top frame's iterator has stopped: popping it keeps the
      invariant. */
  lemma DfsPop(m: Matrix, asWritten: bool, source: nat, marked: seq<bool>, marks: seq<bool>, s: seq<Frame>, it: Iter)
    requires Valid(m) && DfsInv(m, asWritten, source, marked, marks, s) && |s| > 0
    requires IterValid(m, it) && Resting(m, asWritten, it) && it.stopped && it.from == s[|s| - 1].0
    requires s[|s| - 1].1.idx <= it.idx
    requires forall p :: s[|s| - 1].1.idx <= p < it.idx && Yields(m, asWritten, it.from, p) ==> marks[m.cols[p]]
    ensures DfsInv(m, asWritten, source, marked, marks, s[..|s| - 1])
  {
    var top := |s| - 1;
    assert FrameOk(m, asWritten, marked, marks, s[top]);
    StoppedScanned(m, asWritten, marks, s[top].1, it);
    PopKeepsClosed(m, asWritten, marks, s);
    assert FramesOk(m, asWritten, marked, marks, s[..top]) by {
      assert forall k :: 0 <= k < top ==> s[..top][k] == s[k];
    }
  }

  /** The open nodes are distinct nodes below `n`, so a stack holding them
      and one more unopened node fits in `n` slots. */
  lemma PushFits(m: Matrix, asWritten: bool, marked: seq<bool>, marks: seq<bool>, s: seq<Frame>, nb: nat)
    requires Valid(m) && |marked| == |marks| == Size(m) && nb < Size(m) && !marks[nb]
    requires FramesOk(m, asWritten, marked, marks, s) && DistinctFrames(s)
    ensures |s| < Size(m)
  {
    var nodes := seq(|s|, k requires 0 <= k < |s| => s[k].0) + [nb];
    forall k | 0 <= k < |s|
      ensures nodes[k] == s[k].0 && nodes[k] < Size(m) && marks[nodes[k]]
    {
      assert FrameOk(m, asWritten, marked, marks, s[k]);
    }
    DistinctBelow(nodes, Size(m));
  }

  /** The frames after the top iterator advanced and the neighbour was
      pushed. */
  lemma PushFrames(m: Matrix, asWritten: bool, marked: seq<bool>, marks: seq<bool>, s: seq<Frame>, it: Iter, nb: nat)
    requires Valid(m) && |marked| == |marks| == Size(m) && |s| > 0 && nb < Size(m) && !marked[nb]
    requires FramesOk(m, asWritten, marked, marks, s)
    requires IterValid(m, it) && Resting(m, asWritten, it) && it.from == s[|s| - 1].0 && s[|s| - 1].1.idx <= it.idx
    requires forall p :: s[|s| - 1].1.idx <= p < it.idx && Yields(m, asWritten, it.from, p) ==> marks[m.cols[p]]
    ensures FramesOk(m, asWritten, marked, marks[nb := true],
                     s[|s| - 1 := (s[|s| - 1].0, it)] + [(nb, Start(m, asWritten, nb))])
  {
    var top := |s| - 1;
    var marks' := marks[nb := true];
    var s' := s[top := (s[top].0, it)] + [(nb, Start(m, asWritten, nb))];
    forall k | 0 <= k < |s'|
      ensures FrameOk(m, asWritten, marked, marks', s'[k])
    {
      if k < top {
        assert FrameOk(m, asWritten, marked, marks, s[k]);
        assert Scanned(m, asWritten, s[k].1, marks);
      } else if k == top {
        assert FrameOk(m, asWritten, marked, marks, s[top]);
        assert Scanned(m, asWritten, s[top].1, marks);
      }
    }
  }

  /** Pushing an unopened node keeps the frames distinct. */
  lemma PushDistinct(m: Matrix, asWritten: bool, marked: seq<bool>, marks: seq<bool>, s: seq<Frame>, it: Iter, nb: nat)
    requires Valid(m) && |marked| == |marks| == Size(m) && |s| > 0 && nb < Size(m) && !marks[nb]
    requires FramesOk(m, asWritten, marked, marks, s) && DistinctFrames(s)
    ensures DistinctFrames(s[|s| - 1 := (s[|s| - 1].0, it)] + [(nb, Start(m, asWritten, nb))])
  {
    var top := |s| - 1;
    var s' := s[top := (s[top].0, it)] + [(nb, Start(m, asWritten, nb))];
    forall i, j | 0 <= i < j < |s'|
      ensures s'[i].0 != s'[j].0
    {
      assert FrameOk(m, asWritten, marked, marks, s[i]);
    }
  }

  /** Pushing keeps the nodes off the stack closed. */
  lemma PushClosed(m: Matrix, asWritten: bool, marks: seq<bool>, s: seq<Frame>, it: Iter, nb: nat)
    requires Valid(m) && |marks| == Size(m) && |s| > 0 && nb < Size(m)
    requires OffStackClosed(m, asWritten, marks, s)
    ensures OffStackClosed(m, asWritten, marks[nb := true],
                           s[|s| - 1 := (s[|s| - 1].0, it)] + [(nb, Start(m, asWritten, nb))])
  {
    var top := |s| - 1;
    var marks' := marks[nb := true];
    var s' := s[top := (s[top].0, it)] + [(nb, Start(m, asWritten, nb))];
    forall w | 0 <= w < Size(m) && marks'[w] && !OnStack(s', w)
      ensures EdgesMarked(m, asWritten, w, marks')
    {
      assert s'[|s'| - 1].0 == nb;
      forall k | 0 <= k < |s|
        ensures s[k].0 != w
      {
        assert s'[k].0 == s[k].0;
      }
      EdgesMarkedGrow(m, asWritten, w, marks, marks');
    }
  }

  /** The top frame's iterator rests on an unmarked neighbour: marking it and
      pushing its frame keeps the invariant, needs one more free slot of the
      `n`-slot stack, and marks one more node. */
  lemma DfsPush(m: Matrix, asWritten: bool, source: nat, marked: seq<bool>, marks: seq<bool>, s: seq<Frame>, it: Iter)
    requires Valid(m) && DfsInv(m, asWritten, source, marked, marks, s) && |s| > 0
    requires IterValid(m, it) && Resting(m, asWritten, it) && !it.stopped && it.from == s[|s| - 1].0
    requires s[|s| - 1].1.idx <= it.idx
    requires forall p :: s[|s| - 1].1.idx <= p < it.idx && Yields(m, asWritten, it.from, p) ==> marks[m.cols[p]]
    requires !marks[m.cols[it.idx]]
    ensures |s| < Size(m)
    ensures var nb := m.cols[it.idx];
            && Count(marks[nb := true], false) < Count(marks, false)
            && DfsInv(m, asWritten, source, marked, marks[nb := true],
                      s[|s| - 1 := (s[|s| - 1].0, it)] + [(nb, Start(m, asWritten, nb))])
  {
    var top := |s| - 1;
    var u := s[top].0;
    var nb := m.cols[it.idx];
    var marks' := marks[nb := true];
    CountUpdate(marks, nb, true, false);
    PushFits(m, asWritten, marked, marks, s, nb);
    PushFrames(m, asWritten, marked, marks, s, it, nb);
    PushDistinct(m, asWritten, marked, marks, s, it, nb);
    PushClosed(m, asWritten, marks, s, it, nb);
    assert FrameOk(m, asWritten, marked, marks, s[top]);
    PushSound(m, asWritten, source, marked, marks, u, it);
  }

  /** The pushed neighbour is reachable through the open node's edge. */
  lemma PushSound(m: Matrix, asWritten: bool, source: nat, marked: seq<bool>, marks: seq<bool>, u: nat, it: Iter)
    requires Valid(m) && |marked| == |marks| == Size(m) && Sound(m, asWritten, source, marked, marks)
    requires u < Size(m) && (marked[u] || Reachable(m, asWritten, source, u)) && !marked[u]
    requires IterValid(m, it) && Resting(m, asWritten, it) && !it.stopped && it.from == u
    ensures Sound(m, asWritten, source, marked, marks[m.cols[it.idx] := true])
  {
    var nb := m.cols[it.idx];
    assert Edge(m, asWritten, u, nb);
    ReachStep(m, asWritten, source, u, nb);
  }

  /** With the stack empty every marked node has all its neighbours marked. */
  lemma DfsEnd(m: Matrix, asWritten: bool, source: nat, marked: seq<bool>, marks: seq<bool>)
    requires Valid(m) && DfsInv(m, asWritten, source, marked, marks, [])
    ensures Closed(m, asWritten, marks)
  {
  }

  /** Pops the top frame off the stack. */
  method PopFrame(a: ArrayBased.Array<Frame>) returns (a': ArrayBased.Array<Frame>)
    requires |a.items| > 0
    ensures a'.items == a.items[..|a.items| - 1] && a'.capacity == a.capacity
  {
    a' := ArrayBased.Remove(a, |a.items| - 1).value.0;
    assert a'.items == a.items[..|a.items| - 1];
  }

  /** Stores the advanced iterator in the top frame and pushes a new frame
      above it. */
  method PushFrame(a: ArrayBased.Array<Frame>, top: Frame, f: Frame) returns (a': ArrayBased.Array<Frame>)
    requires 0 < |a.items| < a.capacity
    ensures a'.items == a.items[|a.items| - 1 := top] + [f] && a'.capacity == a.capacity
  {
    var b := ArrayBased.Replace(a, |a.items| - 1, top).value.0;
    assert b.items == a.items[|a.items| - 1 := top];
    a' := ArrayBased.Append(b, f).value;
  }

  /** The round's pop: the top iterator stopped having passed only marked
      neighbours, so its frame is dropped. */
  method DfsPopStep(m: Matrix, asWritten: bool, source: nat, marked: seq<bool>, marks: seq<bool>,
                    stack: ArrayBased.Array<Frame>, it: Iter) returns (stack': ArrayBased.Array<Frame>)
    requires Valid(m) && DfsInv(m, asWritten, source, marked, marks, stack.items) && |stack.items| > 0
    requires IterValid(m, it) && Resting(m, asWritten, it) && it.stopped && it.from == stack.items[|stack.items| - 1].0
    requires stack.items[|stack.items| - 1].1.idx <= it.idx
    requires forall p :: stack.items[|stack.items| - 1].1.idx <= p < it.idx && Yields(m, asWritten, it.from, p) ==> marks[m.cols[p]]
    ensures DfsInv(m, asWritten, source, marked, marks, stack'.items)
    ensures stack'.capacity == stack.capacity && |stack'.items| < |stack.items|
  {
    DfsPop(m, asWritten, source, marked, marks, stack.items, it);
    stack' := PopFrame(stack);
  }

  /** The round's push: the top iterator rests on an unmarked neighbour,
      which is marked and gets a frame of its own. */
  method DfsPushStep(m: Matrix, asWritten: bool, source: nat, marked: seq<bool>, marks: seq<bool>,
                     stack: ArrayBased.Array<Frame>, it: Iter)
    returns (marks': seq<bool>, stack': ArrayBased.Array<Frame>)
    requires Valid(m) && DfsInv(m, asWritten, source, marked, marks, stack.items) && |stack.items| > 0
    requires stack.capacity == Size(m)
    requires IterValid(m, it) && Resting(m, asWritten, it) && !it.stopped && it.from == stack.items[|stack.items| - 1].0
    requires stack.items[|stack.items| - 1].1.idx <= it.idx
    requires forall p :: stack.items[|stack.items| - 1].1.idx <= p < it.idx && Yields(m, asWritten, it.from, p) ==> marks[m.cols[p]]
    requires !marks[m.cols[it.idx]]
    ensures DfsInv(m, asWritten, source, marked, marks', stack'.items) && stack'.capacity == Size(m)
    ensures |marks'| == |marks| && Count(marks', false) < Count(marks, false)
  {
    var top := |stack.items| - 1;
    var nb := GetTo(m, it).value;
    DfsPush(m, asWritten, source, marked, marks, stack.items, it);
    marks' := marks[nb := true];
    stack' := PushFrame(stack, (stack.items[top].0, it), (nb, Start(m, asWritten, nb)));
  }

  /** One round of the search loop: advance the top iterator past marked
      neighbours, then push the neighbour it rests on or pop the frame. */
  method DfsStep(m: Matrix, asWritten: bool, source: nat, marked: seq<bool>, marks: seq<bool>, stack: ArrayBased.Array<Frame>)
    returns (marks': seq<bool>, stack': ArrayBased.Array<Frame>)
    requires Valid(m) && DfsInv(m, asWritten, source, marked, marks, stack.items) && |stack.items| > 0
    requires stack.capacity == Size(m)
    ensures DfsInv(m, asWritten, source, marked, marks', stack'.items) && stack'.capacity == Size(m)
    ensures |marks'| == |marks|
    ensures Count(marks', false) < Count(marks, false)
         || (marks' == marks && |stack'.items| < |stack.items|)
  {
    var top := |stack.items| - 1;
    var (u, it0) := ArrayBased.Get(stack, top).value;
    assert FrameOk(m, asWritten, marked, marks, stack.items[top]);
    var it := SkipMarked(m, asWritten, it0, marks);
    if it.stopped {
      marks' := marks;
      stack' := DfsPopStep(m, asWritten, source, marked, marks, stack, it);
    } else {
      marks', stack' := DfsPushStep(m, asWritten, source, marked, marks, stack, it);
    }
  }

  /** `checkAchievables(source)`: push the source with its iterator, then
      repeatedly advance the top iterator to its next unmarked neighbour,
      mark and push that neighbour, or pop the top when its iterator stops.
      Every append to the `n`-slot stack succeeds.  The marks grow to the
      smallest closed set holding the source: every newly marked node is
      reachable from it. */
  method CheckAchievables(m: Matrix, asWritten: bool, source: nat, marked: seq<bool>, stack: ArrayBased.Array<Frame>)
    returns (marks: seq<bool>, stack': ArrayBased.Array<Frame>)
    requires Valid(m) && source < Size(m) && Closed(m, asWritten, marked) && !marked[source]
    requires stack.items == [] && stack.capacity == Size(m)
    ensures stack'.items == [] && stack'.capacity == Size(m)
    ensures |marks| == Size(m) && marks[source]
    ensures forall v :: 0 <= v < Size(m) && marked[v] ==> marks[v]
    ensures Closed(m, asWritten, marks)
    ensures forall v :: 0 <= v < Size(m) && marks[v] && !marked[v] ==> Reachable(m, asWritten, source, v)
  {
    marks := marked[source := true];
    stack' := ArrayBased.Append(stack, (source, Start(m, asWritten, source))).value;
    DfsStart(m, asWritten, source, marked);
    while |stack'.items| > 0
      invariant stack'.capacity == Size(m)
      invariant DfsInv(m, asWritten, source, marked, marks, stack'.items)
      decreases Count(marks, false), |stack'.items|
    {
      marks, stack' := DfsStep(m, asWritten, source, marked, marks, stack');
    }
    DfsEnd(m, asWritten, source, marked, marks);
  }

  // ---------------------------------------------------------------------
  // The run over all sources

  /** The guard of `run` on one source as written: a source past the size is
      refused with `invalid_argument`, but a source equal to the size slips
      through to the bitmap read `achievables[source]`, which throws
      `out_of_range` instead. */
  function SourceGuardAsWritten(n: nat, source: nat): (r: Option<CppError>)
    ensures r.None? <==> source < n
    ensures r == Some(InvalidArgument) <==> source > n
  {
    if source > n then Some(InvalidArgument)
    else if source >= n then Some(OutOfRange)
    else None
  }

  /** The guard as intended: every source that is not a node is refused
      with `invalid_argument`. */
  function SourceGuard(n: nat, source: nat): (r: Option<CppError>)
    ensures r.None? <==> source < n
    ensures r.Some? ==> r.value == InvalidArgument
  {
    if source >= n then Some(InvalidArgument) else None
  }

  /** The source equal to the size is reported with the wrong exception. */
  lemma SourceGuardAsWrittenMisreports()
    ensures SourceGuardAsWritten(3, 3) == Some(OutOfRange)
    ensures SourceGuard(3, 3) == Some(InvalidArgument)
  {
  }

  /** The two guards agree on every source except the one equal to the size. */
  lemma SourceGuardsAgree(n: nat, source: nat)
    requires source != n
    ensures SourceGuardAsWritten(n, source) == SourceGuard(n, source)
  {
  }

  /** The guard as written or as intended. */
  function Guard(asWritten: bool, n: nat, source: nat): Option<CppError> {
    if asWritten then SourceGuardAsWritten(n, source) else SourceGuard(n, source)
  }

  /** One of the first `k` sources reaches `v`. */
  ghost predicate ReachedBy(m: Matrix, asWritten: bool, sources: seq<nat>, k: nat, v: nat)
    requires Valid(m) && k <= |sources|
  {
    exists j :: 0 <= j < k && sources[j] < Size(m) && Reachable(m, asWritten, sources[j], v)
  }

  /** `v` is kept by the reduction: some source reaches it. */
  ghost predicate Retained(m: Matrix, asWritten: bool, sources: seq<nat>, v: nat)
    requires Valid(m)
  {
    ReachedBy(m, asWritten, sources, |sources|, v)
  }

  /** The marks after searching from source `i` are exactly the nodes the
      first `i + 1` sources reach, whether the search ran or the source was
      already marked. */
  lemma RunStep(m: Matrix, asWritten: bool, sources: seq<nat>, i: nat, marks: seq<bool>, marks': seq<bool>)
    requires Valid(m) && i < |sources| && sources[i] < Size(m)
    requires |marks| == |marks'| == Size(m)
    requires forall v :: 0 <= v < Size(m) ==> (marks[v] <==> ReachedBy(m, asWritten, sources, i, v))
    requires Closed(m, asWritten, marks') && marks'[sources[i]]
    requires forall v :: 0 <= v < Size(m) && marks[v] ==> marks'[v]
    requires forall v :: 0 <= v < Size(m) && marks'[v] && !marks[v] ==> Reachable(m, asWritten, sources[i], v)
    ensures forall v :: 0 <= v < Size(m) ==> (marks'[v] <==> ReachedBy(m, asWritten, sources, i + 1, v))
  {
    forall v | 0 <= v < Size(m)
      ensures marks'[v] <==> ReachedBy(m, asWritten, sources, i + 1, v)
    {
      if marks'[v] {
        if marks[v] {
          var j :| 0 <= j < i && sources[j] < Size(m) && Reachable(m, asWritten, sources[j], v);
          assert 0 <= j < i + 1;
        } else {
          assert 0 <= i < i + 1 && sources[i] < Size(m) && Reachable(m, asWritten, sources[i], v);
        }
      } else if ReachedBy(m, asWritten, sources, i + 1, v) {
        var j :| 0 <= j < i + 1 && sources[j] < Size(m) && Reachable(m, asWritten, sources[j], v);
        if j == i {
          ClosedHoldsReach(m, asWritten, marks', sources[i], v);
        }
      }
    }
  }

  /** The loop of `run` over the sources on the thresholded matrix: refuse
      the first source the guard rejects, skip a source already marked, and
      otherwise search from it.  The marks are exactly the nodes the sources
      reach. */
  method Sweep(m: Matrix, asWritten: bool, sources: seq<nat>) returns (r: Result<seq<bool>, CppError>)
    requires Valid(m)
    ensures r.Failure? <==> exists i :: 0 <= i < |sources| && sources[i] >= Size(m)
    ensures r.Failure? ==> exists i :: && 0 <= i < |sources| && sources[i] >= Size(m)
                                       && (forall j :: 0 <= j < i ==> sources[j] < Size(m))
                                       && Guard(asWritten, Size(m), sources[i]) == Some(r.error)
    ensures r.Success? ==> |r.value| == Size(m)
    ensures r.Success? ==> forall v :: 0 <= v < Size(m) ==> (r.value[v] <==> Retained(m, asWritten, sources, v))
  {
    var n := Size(m);
    var marks := seq(n, _ => false);
    var stack := ArrayBased.Array([], n);
    for i := 0 to |sources|
      invariant |marks| == n && Closed(m, asWritten, marks)
      invariant stack.items == [] && stack.capacity == n
      invariant forall j :: 0 <= j < i ==> sources[j] < n
      invariant forall v :: 0 <= v < n ==> (marks[v] <==> ReachedBy(m, asWritten, sources, i, v))
    {
      var source := sources[i];
      var refused := Guard(asWritten, n, source);
      if refused.Some? {
        return Failure(refused.value);
      }
      if !marks[source] {
        var marks', stack' := CheckAchievables(m, asWritten, source, marks, stack);
        stack := stack';
        RunStep(m, asWritten, sources, i, marks, marks');
        marks := marks';
      } else {
        RunStep(m, asWritten, sources, i, marks, marks);
      }
    }
    r := Success(marks);
  }

  /** `run` as intended: zero the weak edges of the caller's matrix, then
      keep exactly the nodes some source reaches along nonzero edges; a
      source that is not a node is refused with `invalid_argument`.  The
      matrix is thresholded even when a source is refused. */
  method Run(m: Matrix, sources: seq<nat>, t: real) returns (m': Matrix, r: Result<seq<bool>, CppError>)
    requires Valid(m)
    ensures Valid(m') && m' == Thresholded(m, t)
    ensures r.Failure? <==> exists i :: 0 <= i < |sources| && sources[i] >= Size(m)
    ensures r.Failure? ==> r.error == InvalidArgument
    ensures r.Success? ==> |r.value| == Size(m)
    ensures r.Success? ==> forall v :: 0 <= v < Size(m) ==> (r.value[v] <==> Retained(m', false, sources, v))
  {
    m' := RemoveEdges(m, t);
    r := Sweep(m', false, sources);
  }

  /** `run` as written: the search also follows every row's first stored
      entry, zeroed or not, and the first source that is not a node is
      refused with `out_of_range` when it equals the size and with
      `invalid_argument` when it is larger. */
  method RunAsWritten(m: Matrix, sources: seq<nat>, t: real) returns (m': Matrix, r: Result<seq<bool>, CppError>)
    requires Valid(m)
    ensures Valid(m') && m' == Thresholded(m, t)
    ensures r.Failure? <==> exists i :: 0 <= i < |sources| && sources[i] >= Size(m)
    ensures r.Failure? ==> exists i :: && 0 <= i < |sources| && sources[i] >= Size(m)
                                       && (forall j :: 0 <= j < i ==> sources[j] < Size(m))
                                       && r.error == (if sources[i] == Size(m) then OutOfRange else InvalidArgument)
    ensures r.Success? ==> |r.value| == Size(m)
    ensures r.Success? ==> forall v :: 0 <= v < Size(m) ==> (r.value[v] <==> Retained(m', true, sources, v))
  {
    m' := RemoveEdges(m, t);
    r := Sweep(m', true, sources);
  }

  /** Every source that is a node is kept. */
  lemma SourcesRetained(m: Matrix, asWritten: bool, sources: seq<nat>, i: nat)
    requires Valid(m) && i < |sources| && sources[i] < Size(m)
    ensures Retained(m, asWritten, sources, sources[i])
  {
    ReachSelf(m, asWritten, sources[i]);
  }

  /** Everything the intended search keeps, the search as written keeps
      too: it follows a superset of the edges. */
  lemma RetainedAsWritten(m: Matrix, sources: seq<nat>, v: nat)
    requires Valid(m) && Retained(m, false, sources, v)
    ensures Retained(m, true, sources, v)
  {
    var j :| 0 <= j < |sources| && sources[j] < Size(m) && Reachable(m, false, sources[j], v);
    var path :| IsPath(m, false, path) && path[0] == sources[j] && path[|path| - 1] == v;
    forall i | 0 <= i < |path| - 1
      ensures Edge(m, true, path[i], path[i + 1])
    {
      assert Edge(m, false, path[i], path[i + 1]);
      var p :| RowStart(m, path[i]) <= p < RowStop(m, path[i]) && m.cols[p] == path[i + 1] && Yields(m, false, path[i], p);
      assert Yields(m, true, path[i], p);
    }
    assert IsPath(m, true, path);
  }

  /** A row whose only entry falls below the threshold.  The search as
      written still follows that zeroed entry, so node 1 is kept; as
      intended only the source is. */
  lemma ZeroEntryKeptAsWritten()
    ensures var m := Thresholded(Matrix([1, 1], [1], [0.5]), 0.6);
            && Valid(m)
            && Retained(m, true, [0], 1)
            && !Retained(m, false, [0], 1)
  {
    var m := Thresholded(Matrix([1, 1], [1], [0.5]), 0.6);
    assert m == Matrix([1, 1], [1], [0.0]);
    ZeroEntryExample(m);
  }

  /** The thresholded example: one zeroed entry `0 -> 1`. */
  lemma ZeroEntryExample(m: Matrix)
    requires m == Matrix([1, 1], [1], [0.0])
    ensures Valid(m) && Retained(m, true, [0], 1) && !Retained(m, false, [0], 1)
  {
    ExampleValid(m);
    ExampleKept(m);
    ExampleDropped(m);
  }

  /** The example matrix is well formed. */
  lemma ExampleValid(m: Matrix)
    requires m == Matrix([1, 1], [1], [0.0])
    ensures Valid(m)
  {
    assert RowSorted(m, 0) && RowSorted(m, 1);
  }

  /** As written the zeroed entry is followed. */
  lemma ExampleKept(m: Matrix)
    requires m == Matrix([1, 1], [1], [0.0]) && Valid(m)
    ensures Retained(m, true, [0], 1)
  {
    assert Yields(m, true, 0, 0);
    assert Edge(m, true, 0, 1);
    assert IsPath(m, true, [0, 1]);
    assert Reachable(m, true, [0][0], 1);
  }

  /** As intended the source alone is closed, so node 1 is out of reach. */
  lemma ExampleDropped(m: Matrix)
    requires m == Matrix([1, 1], [1], [0.0]) && Valid(m)
    ensures !Retained(m, false, [0], 1)
  {
    var marks := [true, false];
    assert EdgesMarked(m, false, 0, marks);
    ClosedHoldsReach(m, false, marks, 0, 1);
  }

  /** A path that survives a higher threshold survives a lower one. */
  lemma PathMonotone(m: Matrix, asWritten: bool, t1: real, t2: real, path: seq<nat>)
    requires Valid(m) && t1 <= t2
    requires Valid(Thresholded(m, t1)) && Valid(Thresholded(m, t2))
    requires IsPath(Thresholded(m, t2), asWritten, path)
    ensures IsPath(Thresholded(m, t1), asWritten, path)
  {
    forall i | 0 <= i < |path| - 1
      ensures Edge(Thresholded(m, t1), asWritten, path[i], path[i + 1])
    {
      EdgeMonotone(m, asWritten, t1, t2, path[i], path[i + 1]);
    }
  }

  /** Raising the threshold never keeps more nodes. */
  lemma RetainedMonotone(m: Matrix, asWritten: bool, sources: seq<nat>, t1: real, t2: real, v: nat)
    requires Valid(m) && t1 <= t2
    ensures Valid(Thresholded(m, t1)) && Valid(Thresholded(m, t2))
    ensures Retained(Thresholded(m, t2), asWritten, sources, v) ==> Retained(Thresholded(m, t1), asWritten, sources, v)
  {
    ThresholdedEntries(m, t1);
    ThresholdedEntries(m, t2);
    if Retained(Thresholded(m, t2), asWritten, sources, v) {
      var m2 := Thresholded(m, t2);
      var j :| 0 <= j < |sources| && sources[j] < Size(m2) && Reachable(m2, asWritten, sources[j], v);
      var path :| IsPath(m2, asWritten, path) && path[0] == sources[j] && path[|path| - 1] == v;
      PathMonotone(m, asWritten, t1, t2, path);
      assert Reachable(Thresholded(m, t1), asWritten, sources[j], v);
    }
  }
}
