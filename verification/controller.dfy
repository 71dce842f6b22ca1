/** The threshold search of the reduction driver: the error metric that
    compares the ignition delays of a reduced model with the original
    ones, the automatic choice of an initial threshold, the check of a
    threshold the user pinned, and the ascent that raises the threshold
    until the error gets too large.

    Reducing the mechanism, writing the reduced model and simulating it
    are foreign work: the search sees them through `errorAt`, the error of
    the model reduced at a given threshold, and identifies a reduced model
    by the threshold it was reduced at. */
module Controller {
  import opened Wrappers

  // ---------------------------------------------------------------------
  // The error metric

  /** What the simulation of a reduced model gives back. */
  datatype Simulation = SimulationFailed | Delays(delays: seq<real>)

  /** The absolute value. */
  function Abs(x: real): (r: real)
    ensures r >= 0.0 && (r == x || r == -x)
  {
    if x < 0.0 then -x else x
  }

  /** The relative deviation of one ignition delay, capped at 1. */
  function Deviation(orig: real, delay: real): (r: real)
    requires orig != 0.0
    ensures 0.0 <= r <= 1.0
  {
    var d := Abs(1.0 - delay / orig);
    if d < 1.0 then d else 1.0
  }

  /** The new delays can be compared with the original ones: one per
      condition, and no original delay is 0. */
  predicate Comparable(orig: seq<real>, delays: seq<real>) {
    |delays| >= |orig| && forall i :: 0 <= i < |orig| ==> orig[i] != 0.0
  }

  /** The largest deviation over the first `k` conditions, 0 for none. */
  function Worst(orig: seq<real>, delays: seq<real>, k: nat): (r: real)
    requires Comparable(orig, delays) && k <= |orig|
    ensures 0.0 <= r <= 1.0
    ensures forall i :: 0 <= i < k ==> Deviation(orig[i], delays[i]) <= r
    ensures r == 0.0 || exists i :: 0 <= i < k && r == Deviation(orig[i], delays[i])
  {
    if k == 0 then 0.0
    else
      var e := Deviation(orig[k - 1], delays[k - 1]);
      var w := Worst(orig, delays, k - 1);
      if w < e then e else w
  }

  /** `_calc_error`: 1 when the simulation failed, otherwise the largest
      capped deviation over all conditions, starting from 0. */
  method CalcError(orig: seq<real>, sim: Simulation) returns (r: real)
    requires sim.Delays? ==> Comparable(orig, sim.delays)
    ensures 0.0 <= r <= 1.0
    ensures sim.SimulationFailed? ==> r == 1.0
    ensures sim.Delays? ==> r == Worst(orig, sim.delays, |orig|)
    ensures sim.Delays? ==> forall i :: 0 <= i < |orig| ==> Deviation(orig[i], sim.delays[i]) <= r
  {
    if sim.SimulationFailed? {
      return 1.0;
    }
    r := 0.0;
    var i := 0;
    while i < |orig|
      invariant i <= |orig| && r == Worst(orig, sim.delays, i)
    {
      var e := Deviation(orig[i], sim.delays[i]);
      if r < e {
        r := e;
      }
      i := i + 1;
    }
  }

  /** Delays equal to the original ones give error 0; a failed simulation
      counts as the worst error. */
  lemma {:induction false} ExactDelaysNoError(orig: seq<real>, k: nat)
    requires Comparable(orig, orig) && k <= |orig|
    ensures Worst(orig, orig, k) == 0.0
  {
    if k > 0 {
      ExactDelaysNoError(orig, k - 1);
      assert orig[k - 1] / orig[k - 1] == 1.0;
    }
  }

  // ---------------------------------------------------------------------
  // Settings

  /** The settings the search reads.  `increment` is `None` when the user
      gave none; `setByUser` tells whether the initial threshold came from
      the user. */
  datatype Settings = Settings(
    maxError: real,
    initialThreshold: real,
    setByUser: bool,
    increment: Option<real>,
    multiplier: real,
    attempts: nat)

  /** Why the search gives up. */
  datatype SearchError = AutoretrievingInitialThresholdError | ReducingError

  // ---------------------------------------------------------------------
  // Automatic initial threshold

  /** `x` to the power `i`. */
  function Pow(x: real, i: nat): real {
    if i == 0 then 1.0 else x * Pow(x, i - 1)
  }

  /** The threshold of attempt `i`: the initial threshold times the
      multiplier to the power `i`. */
  function Attempt(s: Settings, i: nat): real {
    s.initialThreshold * Pow(s.multiplier, i)
  }

  /** The attempts from `i` on, in order: the first whose error is below the
      bound is the answer, together with its index; when every attempt
      fails the search gives up. */
  function Retrieve(s: Settings, errorAt: real -> real, i: nat): (r: Result<nat, SearchError>)
    requires i <= s.attempts
    decreases s.attempts - i
    ensures r.Failure? ==> r.error == AutoretrievingInitialThresholdError
    ensures r.Failure? <==> forall j :: i <= j < s.attempts ==> errorAt(Attempt(s, j)) >= s.maxError
    ensures r.Success? ==>
              && i <= r.value < s.attempts
              && errorAt(Attempt(s, r.value)) < s.maxError
              && forall j :: i <= j < r.value ==> errorAt(Attempt(s, j)) >= s.maxError
  {
    if i == s.attempts then Failure(AutoretrievingInitialThresholdError)
    else if errorAt(Attempt(s, i)) < s.maxError then
      assert !(i <= i < s.attempts ==> errorAt(Attempt(s, i)) >= s.maxError);
      Success(i)
    else Retrieve(s, errorAt, i + 1)
  }

  /** The threshold the ascent starts from: the first passing attempt when
      the user gave none, otherwise the user's, which is refused when its
      error exceeds the bound (an error equal to the bound is accepted). */
  function Start(s: Settings, errorAt: real -> real): (r: Result<real, SearchError>)
    ensures s.setByUser ==> (r.Failure? <==> errorAt(s.initialThreshold) > s.maxError)
    ensures s.setByUser && r.Success? ==> r.value == s.initialThreshold
    ensures s.setByUser && r.Failure? ==> r.error == ReducingError
  {
    if !s.setByUser then
      match Retrieve(s, errorAt, 0)
      case Failure(e) => Failure(e)
      case Success(i) => Success(Attempt(s, i))
    else if errorAt(s.initialThreshold) > s.maxError then Failure(ReducingError)
    else Success(s.initialThreshold)
  }

  /** Whatever way it was chosen, the starting threshold's error is within
      the bound. */
  lemma StartPasses(s: Settings, errorAt: real -> real)
    requires Start(s, errorAt).Success?
    ensures errorAt(Start(s, errorAt).value) <= s.maxError
  {
    if !s.setByUser {
      var i := Retrieve(s, errorAt, 0).value;
      assert Start(s, errorAt).value == Attempt(s, i);
    }
  }

  // ---------------------------------------------------------------------
  // The ascent

  /** What each ascent step adds: the increment when it is set and nonzero,
      otherwise the starting threshold (after an automatic choice, the
      chosen one). */
  function Step(s: Settings, start: real): real {
    if s.increment.Some? && s.increment.value != 0.0 then s.increment.value else start
  }

  /** The threshold after `j` steps of `step` from `start`, added one at a
      time as the loop does. */
  function Trial(start: real, step: real, j: nat): real {
    if j == 0 then start else Trial(start, step, j - 1) + step
  }

  /** With a positive step the trials strictly increase. */
  lemma {:induction false} TrialsIncrease(start: real, step: real, i: nat, j: nat)
    requires step > 0.0 && i < j
    ensures Trial(start, step, i) < Trial(start, step, j)
  {
    if i < j - 1 {
      TrialsIncrease(start, step, i, j - 1);
    }
  }

  /** The ascent from trial `k`: the index of the first later trial whose
      error exceeds the bound.  The loop has no bound of its own; `fuel`
      limits the number of further trials, and `None` means it ran out. */
  function Ascend(errorAt: real -> real, maxError: real, start: real, step: real, k: nat, fuel: nat): (r: Option<nat>)
    decreases fuel
    ensures r.Some? ==>
              && k < r.value <= k + fuel + 1
              && errorAt(Trial(start, step, r.value)) > maxError
              && forall j :: k < j < r.value ==> errorAt(Trial(start, step, j)) <= maxError
    ensures r.None? ==> forall j :: k < j <= k + fuel + 1 ==> errorAt(Trial(start, step, j)) <= maxError
  {
    if errorAt(Trial(start, step, k + 1)) > maxError then Some(k + 1)
    else if fuel == 0 then None
    else Ascend(errorAt, maxError, start, step, k + 1, fuel - 1)
  }

  /** The whole search as written: the starting threshold, then the ascent;
      the model copied out is the one reduced at the trial that stopped the
      ascent. */
  function RunAsWritten(s: Settings, errorAt: real -> real, fuel: nat): (r: Result<Option<real>, SearchError>)
  {
    match Start(s, errorAt)
    case Failure(e) => Failure(e)
    case Success(start) =>
      match Ascend(errorAt, s.maxError, start, Step(s, start), 0, fuel)
      case None => Success(None)
      case Some(j) => Success(Some(Trial(start, Step(s, start), j)))
  }

  /** As written, the copied model is always one whose error exceeds the
      bound. */
  lemma RunAsWrittenCopiesFailing(s: Settings, errorAt: real -> real, fuel: nat)
    requires RunAsWritten(s, errorAt, fuel).Success? && RunAsWritten(s, errorAt, fuel).value.Some?
    ensures errorAt(RunAsWritten(s, errorAt, fuel).value.value) > s.maxError
  {
  }

  /** The search as intended: the model copied out is the last one whose
      error stayed within the bound. */
  function Run(s: Settings, errorAt: real -> real, fuel: nat): (r: Result<Option<real>, SearchError>)
  {
    match Start(s, errorAt)
    case Failure(e) => Failure(e)
    case Success(start) =>
      match Ascend(errorAt, s.maxError, start, Step(s, start), 0, fuel)
      case None => Success(None)
      case Some(j) => Success(Some(Trial(start, Step(s, start), j - 1)))
  }

  /** The intended search delivers a threshold whose error is within the
      bound and one step above which the error is not; with positive
      settings that threshold is at least the starting one. */
  lemma RunDeliversLastPassing(s: Settings, errorAt: real -> real, fuel: nat)
    requires Run(s, errorAt, fuel).Success? && Run(s, errorAt, fuel).value.Some?
    ensures var start := Start(s, errorAt).value;
            var t := Run(s, errorAt, fuel).value.value;
            && errorAt(t) <= s.maxError
            && errorAt(t + Step(s, start)) > s.maxError
            && (Step(s, start) > 0.0 ==> start <= t)
  {
    var start := Start(s, errorAt).value;
    var step := Step(s, start);
    var j := Ascend(errorAt, s.maxError, start, step, 0, fuel).value;
    if j == 1 {
      StartPasses(s, errorAt);
    } else if step > 0.0 {
      TrialsIncrease(start, step, 0, j - 1);
    }
  }

  /** A user threshold of 1 with the error rising past the bound above
      1.5: as written the search copies the model reduced at 2, whose
      error is 1, where the intended search copies the one reduced at 1. */
  lemma AscentCopiesFailingTrial()
    ensures var s := Settings(0.5, 1.0, true, None, 0.01, 3);
            var errorAt := (t: real) => if t > 1.5 then 1.0 else 0.0;
            && RunAsWritten(s, errorAt, 0) == Success(Some(2.0))
            && errorAt(2.0) > s.maxError
            && Run(s, errorAt, 0) == Success(Some(1.0))
  {
  }
}
