/** The worker manager: it starts a fixed list of worker processes once and
    shuts them down once.  Processes are not modelled: what `is_alive()`
    answers at each check is an input, and the manager's effect is the
    sequence of calls it makes on each worker. */
module Workers {
  import opened Wrappers

  /** A call on a worker process. */
  datatype Action = StartWorker | JoinWorker(timeout: Option<real>) | TerminateWorker | CloseWorker

  /** The manager's fields: the number of workers, its two flags, the join
      timeout after a termination, and the calls made on each worker. */
  datatype Manager = Manager(count: nat, isOpen: bool, isClosed: bool, joinTimeout: real, calls: seq<seq<Action>>)

  /** The calls are recorded per worker. */
  predicate Recorded(m: Manager) {
    |m.calls| == m.count
  }

  /** A new manager over `count` workers, neither opened nor closed. */
  function New(count: nat, joinTimeout: real): (m: Manager)
    ensures m.count == count && m.joinTimeout == joinTimeout
    ensures Recorded(m) && !m.isOpen && !m.isClosed
    ensures forall i :: 0 <= i < count ==> m.calls[i] == []
  {
    Manager(count, false, false, joinTimeout, seq(count, _ => []))
  }

  /** Why a call is refused: a `ValueError("Invalid state")`. */
  datatype ManagerError = InvalidState

  /** `open()`: refused once opened or closed; otherwise starts every
      worker, in list order, and sets `opened`. */
  method Open(m: Manager) returns (r: Result<Manager, ManagerError>)
    requires Recorded(m)
    ensures r.Failure? <==> m.isOpen || m.isClosed
    ensures r.Failure? ==> r == Failure(InvalidState)
    ensures r.Success? ==> Recorded(r.value) && r.value.isOpen && !r.value.isClosed && r.value.count == m.count
    ensures r.Success? ==> r.value.joinTimeout == m.joinTimeout
    ensures r.Success? ==> forall i :: 0 <= i < m.count ==> r.value.calls[i] == m.calls[i] + [StartWorker]
  {
    if m.isOpen || m.isClosed {
      return Failure(InvalidState);
    }
    var calls := m.calls;
    var i := 0;
    while i < m.count
      invariant i <= m.count && |calls| == m.count
      invariant forall j :: 0 <= j < i ==> calls[j] == m.calls[j] + [StartWorker]
      invariant forall j :: i <= j < m.count ==> calls[j] == m.calls[j]
    {
      calls := calls[i := calls[i] + [StartWorker]];
      i := i + 1;
    }
    return Success(m.(isOpen := true, calls := calls));
  }

  /** What `is_alive()` answers for one worker: before anything is done,
      after waiting for it to finish, and after the final join. */
  datatype Liveness = Liveness(atFirst: bool, afterWait: bool, atLast: bool)

  /** The shutdown of one worker.  A dead worker is just closed.  A live one
      is terminated at once when the finishing timeout is 0, and otherwise
      joined with that timeout and terminated only if still alive; then it
      is joined with the manager's timeout and closed unless still alive. */
  function Shutdown(live: Liveness, finishing: Option<real>, joinTimeout: real): (r: seq<Action>)
    ensures |r| > 0
  {
    if !live.atFirst then [CloseWorker]
    else
      var stop := if finishing == Some(0.0) then [TerminateWorker]
                  else [JoinWorker(finishing)] + (if live.afterWait then [TerminateWorker] else []);
      stop + [JoinWorker(Some(joinTimeout))] + (if live.atLast then [] else [CloseWorker])
  }

  /** Which calls a worker gets: it is closed exactly when it is found dead
      at the first or the last check, terminated exactly when it was alive
      and either the finishing timeout is 0 or it outlived the wait, and
      never started. */
  lemma ShutdownCalls(live: Liveness, finishing: Option<real>, joinTimeout: real)
    ensures CloseWorker in Shutdown(live, finishing, joinTimeout) <==> !live.atFirst || !live.atLast
    ensures (TerminateWorker in Shutdown(live, finishing, joinTimeout))
              == (live.atFirst && (finishing == Some(0.0) || live.afterWait))
    ensures StartWorker !in Shutdown(live, finishing, joinTimeout)
    ensures !live.atFirst ==> Shutdown(live, finishing, joinTimeout) == [CloseWorker]
    ensures live.atFirst && finishing == Some(0.0) ==> Shutdown(live, finishing, joinTimeout)[..2] == [TerminateWorker, JoinWorker(Some(joinTimeout))]
  {
    var s := Shutdown(live, finishing, joinTimeout);
    if live.atFirst {
      var stop := if finishing == Some(0.0) then [TerminateWorker]
                  else [JoinWorker(finishing)] + (if live.afterWait then [TerminateWorker] else []);
      var tail := if live.atLast then [] else [CloseWorker];
      assert s == stop + [JoinWorker(Some(joinTimeout))] + tail;
      assert CloseWorker !in stop && StartWorker !in stop;
      if !live.atLast {
        assert s[|s| - 1] == CloseWorker;
      }
      if TerminateWorker in s {
        assert TerminateWorker in stop;
      }
      if finishing != Some(0.0) && live.afterWait {
        assert stop[1] == TerminateWorker;
      }
    }
  }

  /** `close(finishing_timeout)`: refused unless opened and not yet closed;
      otherwise shuts every worker down in list order and sets `closed`.
      `lives[i]` is what worker `i` answers. */
  method Close(m: Manager, finishing: Option<real>, lives: seq<Liveness>) returns (r: Result<Manager, ManagerError>)
    requires Recorded(m) && |lives| == m.count
    ensures r.Failure? <==> !m.isOpen || m.isClosed
    ensures r.Failure? ==> r == Failure(InvalidState)
    ensures r.Success? ==> Recorded(r.value) && r.value.isClosed && r.value.isOpen && r.value.count == m.count
    ensures r.Success? ==> r.value.joinTimeout == m.joinTimeout
    ensures r.Success? ==> forall i :: 0 <= i < m.count ==>
              r.value.calls[i] == m.calls[i] + Shutdown(lives[i], finishing, m.joinTimeout)
  {
    if !m.isOpen || m.isClosed {
      return Failure(InvalidState);
    }
    var calls := m.calls;
    var i := 0;
    while i < m.count
      invariant i <= m.count && |calls| == m.count
      invariant forall j :: 0 <= j < i ==> calls[j] == m.calls[j] + Shutdown(lives[j], finishing, m.joinTimeout)
      invariant forall j :: i <= j < m.count ==> calls[j] == m.calls[j]
    {
      calls := calls[i := calls[i] + Shutdown(lives[i], finishing, m.joinTimeout)];
      i := i + 1;
    }
    return Success(m.(isClosed := true, calls := calls));
  }

  /** The manager's life: a new manager opens and closes once, after which
      it can be neither reopened nor closed again; each worker was started
      once and then shut down. */
  method Lifecycle(count: nat, joinTimeout: real, finishing: Option<real>, lives: seq<Liveness>)
      returns (first: Result<Manager, ManagerError>, last: Result<Manager, ManagerError>,
               reopened: Result<Manager, ManagerError>, reclosed: Result<Manager, ManagerError>)
    requires |lives| == count
    ensures reopened == Failure(InvalidState) && reclosed == Failure(InvalidState)
    ensures first.Success? && last.Success? && |last.value.calls| == count
    ensures last.Success? && |last.value.calls| == count ==> forall i :: 0 <= i < count ==>
              last.value.calls[i] == [StartWorker] + Shutdown(lives[i], finishing, joinTimeout)
  {
    var m := New(count, joinTimeout);
    first := Open(m);
    last := Close(first.value, finishing, lives);
    reopened := Open(last.value);
    reclosed := Close(last.value, finishing, lives);
  }
}
