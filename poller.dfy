/**
 * The sensor poller: each cycle one fetch attempt, whose outcome updates
 * the shared PM2.5 value and the consecutive-failure counter. The HTTP
 * call, the sleep between cycles, the thread and the keep-running flag are
 * not modelled; the outcome of each attempt is a parameter.
 */
module Poller {

  /** The PM2.5 value that marks "no recent reading". */
  const Offline: real := -1.0

  /** Failures tolerated before the shared value is forced to Offline. */
  const FailCountTolerance: nat := 8

  /** What the body of a response turned out to be when it was parsed. */
  datatype Body =
    | Reading(pm25: real)   // the body parsed and held a PM2.5 field
    | Malformed             // parsing the body, or reading the field, raised

  /** The outcome of one fetch attempt. */
  datatype Outcome =
    | Responded(status: int, body: Body)  // the request returned with this status code
    | TimedOut                            // the request timed out
    | Failed                              // any other exception before a status was known

  /**
   * A failure that adds one to the counter without resetting it first: a
   * non-200 status, a timeout or an exception. A 200 response never is one;
   * a 200 whose body fails to parse resets the counter and then increments
   * it (see IsMalformedOk). A non-200 status in fact already raises inside
   * get_sensor (it adds an int to a str while logging), so it reaches the
   * bare except rather than the else branch; the counter is incremented
   * either way.
   */
  predicate IsCountedFailure(o: Outcome)
    ensures IsCountedFailure(o) <==> !(o.Responded? && o.status == 200)
  {
    match o
    case Responded(status, _) => status != 200
    case TimedOut => true
    case Failed => true
  }

  /** A 200 response whose body failed to parse. */
  predicate IsMalformedOk(o: Outcome)
    ensures IsMalformedOk(o) ==> !IsCountedFailure(o)
  {
    o.Responded? && o.status == 200 && o.body.Malformed?
  }

  /** The poller's state: the shared PM2.5 value and the consecutive-failure counter. */
  datatype PollState = PollState(pm25: real, failCount: nat)

  /** Whenever the counter is over the tolerance, the shared value is Offline. */
  predicate OfflineWhenOverTolerance(s: PollState)
  {
    s.failCount > FailCountTolerance ==> s.pm25 == Offline
  }

  /**
   * One cycle of the poller. On a 200 status the counter is reset BEFORE
   * the body is parsed, so a body that fails to parse leaves the counter
   * at 0 + 1 = 1 whatever it was before.
   */
  function Next(s: PollState, o: Outcome): (t: PollState)
    ensures o.Responded? && o.status == 200 && o.body.Reading? ==> t == PollState(o.body.pm25, 0)
    ensures IsCountedFailure(o) ==>
      t.failCount == s.failCount + 1 &&
      t.pm25 == (if t.failCount > FailCountTolerance then Offline else s.pm25)
    ensures IsMalformedOk(o) ==> t == PollState(s.pm25, 1)
    ensures OfflineWhenOverTolerance(t)
  {
    var attempted :=
      match o
      case Responded(status, body) =>
        if status == 200 then
          match body
          case Reading(v) => PollState(v, 0)
          case Malformed => PollState(s.pm25, 0 + 1)
        else PollState(s.pm25, s.failCount + 1)
      case TimedOut => PollState(s.pm25, s.failCount + 1)
      case Failed => PollState(s.pm25, s.failCount + 1);
    if attempted.failCount > FailCountTolerance then attempted.(pm25 := Offline) else attempted
  }

  /** The state after a sequence of cycles, oldest outcome first. */
  function RunAll(s: PollState, os: seq<Outcome>): (t: PollState)
    ensures t.failCount <= s.failCount + |os|
    ensures os != [] ==> OfflineWhenOverTolerance(t)
    decreases |os|
  {
    if os == [] then s else Next(RunAll(s, os[..|os| - 1]), os[|os| - 1])
  }

  /** RunAll over a concatenation runs the second part from where the first left off. */
  lemma {:induction false} RunAllAppend(s: PollState, os: seq<Outcome>, o: Outcome)
    ensures RunAll(s, os + [o]) == Next(RunAll(s, os), o)
  {
    assert (os + [o])[..|os + [o]| - 1] == os;
  }

  /** A run keeps the invariant, and a non-empty run establishes it from any state. */
  lemma {:induction false} RunKeepsOfflineInvariant(s: PollState, os: seq<Outcome>)
    requires OfflineWhenOverTolerance(s) || os != []
    ensures OfflineWhenOverTolerance(RunAll(s, os))
  {
  }

  /** Only failures: the counter rises by one per cycle, and the value is Offline once it passes the tolerance. */
  lemma {:induction false} ConsecutiveFailures(s: PollState, os: seq<Outcome>)
    requires forall k :: 0 <= k < |os| ==> IsCountedFailure(os[k])
    ensures RunAll(s, os).failCount == s.failCount + |os|
    ensures RunAll(s, os).pm25 ==
      if os != [] && s.failCount + |os| > FailCountTolerance then Offline else s.pm25
  {
    if os != [] {
      var init := os[..|os| - 1];
      assert forall k :: 0 <= k < |init| ==> IsCountedFailure(init[k]) by {
        forall k | 0 <= k < |init| ensures IsCountedFailure(init[k]) {
          assert init[k] == os[k];
        }
      }
      ConsecutiveFailures(s, init);
    }
  }

  /** From a reset counter, FailCountTolerance + 1 = 9 consecutive failures force the value to Offline. */
  lemma NineFailuresForceOffline(s: PollState, os: seq<Outcome>)
    requires s.failCount == 0
    requires |os| == FailCountTolerance + 1
    requires forall k :: 0 <= k < |os| ==> IsCountedFailure(os[k])
    ensures RunAll(s, os).pm25 == Offline
  {
    ConsecutiveFailures(s, os);
  }

  /** From a reset counter, 8 consecutive failures still leave the last reading in place. */
  lemma EightFailuresKeepReading(s: PollState, os: seq<Outcome>)
    requires s.failCount == 0
    requires |os| == FailCountTolerance
    requires forall k :: 0 <= k < |os| ==> IsCountedFailure(os[k])
    ensures RunAll(s, os).pm25 == s.pm25
  {
    ConsecutiveFailures(s, os);
  }

  /**
   * Only malformed 200 responses: the counter ends at 1 and the value is
   * untouched, so such responses alone never force Offline.
   */
  lemma {:induction false} MalformedOkNeverOffline(s: PollState, os: seq<Outcome>)
    requires os != []
    requires forall k :: 0 <= k < |os| ==> IsMalformedOk(os[k])
    ensures RunAll(s, os) == PollState(s.pm25, 1)
  {
    var init := os[..|os| - 1];
    if init != [] {
      assert forall k :: 0 <= k < |init| ==> IsMalformedOk(init[k]) by {
        forall k | 0 <= k < |init| ensures IsMalformedOk(init[k]) {
          assert init[k] == os[k];
        }
      }
      MalformedOkNeverOffline(s, init);
    }
  }

  /** A cycle that does not bring a reading never changes an Offline value. */
  predicate NoReading(o: Outcome)
  {
    !(o.Responded? && o.status == 200 && o.body.Reading?)
  }

  /**
   * Until the first 200 response that carries a reading, the shared value
   * stays Offline, whatever the counter does.
   */
  lemma {:induction false} OfflineUntilReading(n: nat, os: seq<Outcome>)
    requires forall k :: 0 <= k < |os| ==> NoReading(os[k])
    ensures RunAll(PollState(Offline, n), os).pm25 == Offline
  {
    if os != [] {
      var init := os[..|os| - 1];
      assert forall k :: 0 <= k < |init| ==> NoReading(init[k]) by {
        forall k | 0 <= k < |init| ensures NoReading(init[k]) {
          assert init[k] == os[k];
        }
      }
      OfflineUntilReading(n, init);
    }
  }

  /** A successful cycle recovers from any state: the reading is taken and the counter cleared. */
  lemma SuccessRecovers(s: PollState, os: seq<Outcome>, v: real)
    ensures RunAll(s, os + [Responded(200, Reading(v))]) == PollState(v, 0)
  {
    RunAllAppend(s, os, Responded(200, Reading(v)));
  }

  /**
   * The poller thread. pm25 is the shared value the render loop reads
   * (starting at Offline); failCount is the counter the thread keeps.
   */
  class AqiThread {
    var pm25: real
    var failCount: nat

    function State(): PollState
      reads this
    {
      PollState(pm25, failCount)
    }

    /**
     * The invariant the last two lines of each cycle keep: a counter over
     * the tolerance means the shared value is Offline. It is stated for
     * readers; Step and Run already give the whole new state.
     */
    ghost predicate Valid()
      reads this
    {
      OfflineWhenOverTolerance(State())
    }

    constructor ()
      ensures pm25 == Offline && failCount == 0
      ensures Valid()
    {
      pm25 := Offline;
      failCount := 0;
    }

    /** One cycle of the poll loop, given the outcome of the fetch. */
    method Step(o: Outcome)
      modifies this
      ensures State() == Next(old(State()), o)
      ensures Valid()
    {
      match o {
        case Responded(status, body) =>
          if status == 200 {
            failCount := 0;
            match body {
              case Reading(v) => pm25 := v;
              case Malformed => failCount := failCount + 1;
            }
          } else {
            failCount := failCount + 1;
          }
        case TimedOut =>
          failCount := failCount + 1;
        case Failed =>
          failCount := failCount + 1;
      }
      if failCount > FailCountTolerance {
        pm25 := Offline;
      }
    }

    /**
     * The thread body: the counter starts at zero, then one Step per
     * outcome. The shared value is not reset at the start.
     */
    method Run(os: seq<Outcome>)
      modifies this
      ensures State() == RunAll(PollState(old(pm25), 0), os)
      ensures Valid()
    {
      failCount := 0;
      ghost var start := State();
      var k := 0;
      while k < |os|
        invariant 0 <= k <= |os|
        invariant State() == RunAll(start, os[..k])
        invariant Valid()
      {
        Step(os[k]);
        RunAllAppend(start, os[..k], os[k]);
        assert os[..k + 1] == os[..k] + [os[k]];
        k := k + 1;
      }
      assert os[..|os|] == os;
    }
  }
}
