/** The messages between the driver and its worker processes: a worker
    announces that it started, sends any number of results, and announces
    that it finished; the driver sends it work.  Only the classification of
    what arrives is modelled: pipes, queues and the relay thread are not,
    and what a poll of the queue yields, and when, are inputs. */
module Messages {
  import opened Wrappers

  /** The three message types. */
  datatype MessageType = Started | Finished | Other

  /** What arrives on a connection: a message, or some other object. */
  datatype Received<T> = Message(kind: MessageType, args: T) | NotAMessage

  /** What receiving raises. */
  datatype ReceiveError = TimeoutError | RuntimeError | ValueError

  /** `send_to_worker` and `_send_msg_to_parent`: the payload is wrapped as
      an "other" message. */
  function Send<T>(obj: T): Received<T> {
    Message(Other, obj)
  }

  /** What the driver makes of a received object: the payload of an "other"
      message; a "finished" message means the worker has nothing more to
      send; anything else is a protocol breach. */
  function Classify<T>(msg: Received<T>): (r: Result<T, ReceiveError>)
    ensures r.Success? <==> msg.Message? && msg.kind == Other
    ensures r.Success? ==> r.value == msg.args
    ensures r.Failure? ==> (r.error == ValueError <==> msg.Message? && msg.kind == Finished)
  {
    match msg
    case NotAMessage => Failure(RuntimeError)
    case Message(kind, args) =>
      match kind
      case Started => Failure(RuntimeError)
      case Finished => Failure(ValueError)
      case Other => Success(args)
  }

  /** `_get_msg_from_parent`: `polled` is what the poll saw (`None` when it
      timed out).  Only an "other" message is accepted. */
  function GetFromParent<T>(polled: Option<Received<T>>): (r: Result<T, ReceiveError>)
    ensures r.Success? <==> polled.Some? && polled.value.Message? && polled.value.kind == Other
    ensures r.Success? ==> r.value == polled.value.args
    ensures polled.None? ==> r == Failure(TimeoutError)
    ensures polled.Some? && r.Failure? ==> r.error == RuntimeError
  {
    match polled
    case None => Failure(TimeoutError)
    case Some(NotAMessage) => Failure(RuntimeError)
    case Some(Message(kind, args)) => if kind != Other then Failure(RuntimeError) else Success(args)
  }

  /** What one poll of the worker's queue yields: a message, or nothing
      (together with whether the worker had closed its end by then). */
  datatype Poll<T> = Got(msg: Received<T>) | Empty(closedByWorker: bool)

  /** One poll, at time `now`. */
  datatype Observation<T> = Observation(now: real, poll: Poll<T>)

  /** The deadline of `get_msg_from_worker(timeout)`: only a positive
      timeout sets one. */
  function Deadline(start: real, timeout: Option<real>): Option<real> {
    if timeout.Some? && timeout.value > 0.0 then Some(start + timeout.value) else None
  }

  /** Whether the wait ends at observation `o`: the deadline has passed, a
      message arrived, or the queue is empty for good. */
  predicate Decisive<T>(deadline: Option<real>, o: Observation<T>) {
    (deadline.Some? && o.now >= deadline.value) || o.poll.Got? || o.poll.closedByWorker
  }

  /** How the wait ends at a decisive observation. */
  function Outcome<T>(deadline: Option<real>, o: Observation<T>): Result<T, ReceiveError>
    requires Decisive(deadline, o)
  {
    if deadline.Some? && o.now >= deadline.value then Failure(TimeoutError)
    else if o.poll.Got? then Classify(o.poll.msg)
    else Failure(ValueError)
  }

  /** `get_msg_from_worker(timeout)` over the observations of its loop:
      polls until a message arrives, the deadline passes or the worker has
      closed its end with nothing queued.  `None` means the observations ran
      out with the wait still going. */
  method GetFromWorker<T>(start: real, timeout: Option<real>, obs: seq<Observation<T>>) returns (r: Option<Result<T, ReceiveError>>)
    ensures r.None? <==> forall i :: 0 <= i < |obs| ==> !Decisive(Deadline(start, timeout), obs[i])
    ensures r.Some? ==> exists k :: 0 <= k < |obs| && Decisive(Deadline(start, timeout), obs[k])
                           && (forall i :: 0 <= i < k ==> !Decisive(Deadline(start, timeout), obs[i]))
                           && r.value == Outcome(Deadline(start, timeout), obs[k])
  {
    var deadline := Deadline(start, timeout);
    var i := 0;
    while i < |obs|
      invariant i <= |obs|
      invariant forall j :: 0 <= j < i ==> !Decisive(deadline, obs[j])
    {
      var o := obs[i];
      if deadline.Some? && o.now >= deadline.value {
        return Some(Failure(TimeoutError));
      }
      match o.poll {
        case Got(msg) =>
          return Some(Classify(msg));
        case Empty(closed) =>
          if closed {
            return Some(Failure(ValueError));
          }
      }
      i := i + 1;
    }
    return None;
  }

  /** A payload sent either way arrives as itself. */
  lemma SendRoundTrip<T>(obj: T)
    ensures Classify(Send(obj)) == Success(obj)
    ensures GetFromParent(Some(Send(obj))) == Success(obj)
  {
  }

  /** Without a positive timeout there is no deadline: only a message or a
      worker that closed its end stops the wait. */
  lemma NoTimeoutNoDeadline<T>(start: real, timeout: Option<real>, o: Observation<T>)
    requires timeout.None? || timeout.value <= 0.0
    ensures Decisive(Deadline(start, timeout), o) <==> o.poll.Got? || o.poll.closedByWorker
    ensures Decisive(Deadline(start, timeout), o) ==> Outcome(Deadline(start, timeout), o) != Failure(TimeoutError)
  {
  }
}
