/**
 * The poller and the render loop together: what the LEDs show follows
 * from the poller's state alone (the render loop reads the shared value).
 */
module Orb {
  import opened AqiTable
  import opened Poller
  import opened Render

  /** Nine consecutive failures after a reset make the orb show the offline colour: blue by day, dim blue at night. */
  lemma SustainedOutageShowsOffline(s: PollState, os: seq<Outcome>, hour: int)
    requires s.failCount == 0 && 0 <= hour <= 23
    requires |os| == FailCountTolerance + 1
    requires forall k :: 0 <= k < |os| ==> IsCountedFailure(os[k])
    ensures RenderColor(RunAll(s, os).pm25, hour) ==
      if IsNight(hour) then Color(0.0, 0.0, 85.0) else Color(0.0, 0.0, 255.0)
  {
    NineFailuresForceOffline(s, os);
  }

  /** Malformed 200 responses alone leave the painted colour exactly as it was. */
  lemma MalformedOkKeepsColour(s: PollState, os: seq<Outcome>, hour: int)
    requires os != [] && 0 <= hour <= 23
    requires forall k :: 0 <= k < |os| ==> IsMalformedOk(os[k])
    ensures RenderColor(RunAll(s, os).pm25, hour) == RenderColor(s.pm25, hour)
  {
    MalformedOkNeverOffline(s, os);
  }

  /**
   * A poller that starts Offline (as the program does) keeps the orb showing
   * the offline colour through every cycle until the first reading arrives.
   */
  lemma StartsOffline(n: nat, os: seq<Outcome>, hour: int)
    requires 0 <= hour <= 23
    requires forall k :: 0 <= k < |os| ==> NoReading(os[k])
    ensures RenderColor(RunAll(PollState(Offline, n), os).pm25, hour) ==
      if IsNight(hour) then Color(0.0, 0.0, 85.0) else Color(0.0, 0.0, 255.0)
  {
    OfflineUntilReading(n, os);
  }
}
