/** The controller's clock: the `isRunning` flag, the time of the last applied
    step, and how the animation callback, the Start/Stop button and the
    Clear/Random buttons change them. Timestamps are whole milliseconds. */
module Throttle {

  /** Least gap, exclusive, between two steps, in milliseconds. */
  const StepInterval: int := 150

  datatype Clock = Clock(running: bool, lastUpdate: int)

  /** A frame at `timestamp` applies a step: only a running clock is ever due,
      and only at a time later than its last step. */
  predicate Due(c: Clock, timestamp: int): (due: bool)
    ensures due ==> c.running && timestamp > c.lastUpdate
  {
    c.running && timestamp - c.lastUpdate > StepInterval
  }

  /** The clock after the animation callback runs at `timestamp`: an idle
      clock is left alone, a running one records the timestamp iff it steps. */
  function OnFrame(c: Clock, timestamp: int): (r: Clock)
    ensures r.running == c.running
    ensures r.lastUpdate == (if Due(c, timestamp) then timestamp else c.lastUpdate)
  {
    if !c.running then c
    else if timestamp - c.lastUpdate > StepInterval then c.(lastUpdate := timestamp)
    else c
  }

  /** The Start/Stop button: negates `running`; starting resets `lastUpdate` to 0. */
  function OnStartStop(c: Clock): (r: Clock)
    ensures r.running == !c.running
    ensures r.lastUpdate == (if c.running then c.lastUpdate else 0)
  {
    var running := !c.running;
    if running then Clock(running, 0) else Clock(running, c.lastUpdate)
  }

  /** The Clear and Random buttons: stop if running, keep `lastUpdate`. */
  function ForceIdle(c: Clock): (r: Clock)
    ensures !r.running && r.lastUpdate == c.lastUpdate
  {
    if c.running then c.(running := false) else c
  }

  /** The timestamps, among the frames `ts` delivered in order, at which a step
      is applied. */
  function StepTimes(c: Clock, ts: seq<int>): (s: seq<int>)
    ensures |s| <= |ts|
    decreases |ts|
  {
    if ts == [] then []
    else (if Due(c, ts[0]) then [ts[0]] else []) + StepTimes(OnFrame(c, ts[0]), ts[1..])
  }

  /** An idle clock never steps, whatever frames arrive. */
  lemma {:induction false} IdleNeverSteps(c: Clock, ts: seq<int>)
    requires !c.running
    ensures StepTimes(c, ts) == []
    decreases |ts|
  {
    if ts != [] {
      IdleNeverSteps(OnFrame(c, ts[0]), ts[1..]);
    }
  }

  /** Steps are throttled: the first step comes more than 150 ms after
      `lastUpdate`, each later one more than 150 ms after the one before, and
      every step time is the time of one of the frames. */
  lemma {:induction false} StepsSpacedApart(c: Clock, ts: seq<int>)
    ensures var s := StepTimes(c, ts);
            |s| <= |ts|
            && (|s| > 0 ==> s[0] - c.lastUpdate > StepInterval)
            && (forall k :: 0 < k < |s| ==> s[k] - s[k - 1] > StepInterval)
            && (forall k :: 0 <= k < |s| ==> s[k] in ts)
    decreases |ts|
  {
    if ts != [] {
      var c' := OnFrame(c, ts[0]);
      StepsSpacedApart(c', ts[1..]);
      var rest := StepTimes(c', ts[1..]);
      var s := StepTimes(c, ts);
      forall k | 0 <= k < |s| ensures s[k] in ts {
        if Due(c, ts[0]) && k == 0 { } else {
          var k' := if Due(c, ts[0]) then k - 1 else k;
          assert s[k] == rest[k'];
          assert rest[k'] in ts[1..];
        }
      }
    }
  }

  /** The throttle never skips a frame that is due: when every frame comes more
      than 150 ms after the one before (the first one more than 150 ms after
      `lastUpdate`), a running clock steps at every frame. */
  lemma {:induction false} SparseFramesAllStep(c: Clock, ts: seq<int>)
    requires c.running
    requires |ts| > 0 ==> ts[0] - c.lastUpdate > StepInterval
    requires forall k :: 0 < k < |ts| ==> ts[k] - ts[k - 1] > StepInterval
    ensures StepTimes(c, ts) == ts
    decreases |ts|
  {
    if ts != [] {
      var c' := OnFrame(c, ts[0]);
      assert c'.lastUpdate == ts[0];
      var tail := ts[1..];
      assert forall k :: 0 < k < |tail| ==> tail[k] - tail[k - 1] > StepInterval by {
        forall k | 0 < k < |tail| ensures tail[k] - tail[k - 1] > StepInterval {
          assert tail[k] == ts[k + 1] && tail[k - 1] == ts[k];
        }
      }
      assert |tail| > 0 ==> tail[0] - c'.lastUpdate > StepInterval by {
        if |tail| > 0 { assert tail[0] == ts[1]; }
      }
      SparseFramesAllStep(c', tail);
    }
  }
}
