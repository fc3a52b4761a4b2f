/** The time step `_updatePhysics` hands the physics world on each frame
    (js/app.js:521-528). `lastUpdate` starts out undefined; like every falsy
    value it counts as "no previous frame", which the model writes as 0.0. */
module Frame {

  /** The step for a frame at `timestamp` after a frame at `lastUpdate`: none
      when there was no previous frame, otherwise the time elapsed since it. */
  function FrameStep(lastUpdate: real, timestamp: real): (step: real)
    ensures lastUpdate == 0.0 ==> step == 0.0
    ensures lastUpdate != 0.0 ==> lastUpdate + step == timestamp
  {
    if lastUpdate == 0.0 then 0.0 else timestamp - lastUpdate
  }

  /** The steps of a run of frames at `timestamps`, added up; every frame
      records its own timestamp as the next `lastUpdate`. */
  function TotalStep(lastUpdate: real, timestamps: seq<real>): real
    decreases |timestamps|
  {
    if timestamps == [] then 0.0
    else FrameStep(lastUpdate, timestamps[0]) + TotalStep(timestamps[0], timestamps[1..])
  }

  /** Over a run of frames whose timestamps are all set, the steps add up to
      the time from the previous frame (or, with none, from the first frame of
      the run) to the last frame: the world is advanced by exactly the
      elapsed time, however the frames are spaced. */
  lemma {:induction false} StepsTelescope(lastUpdate: real, timestamps: seq<real>)
    requires timestamps != []
    requires forall i :: 0 <= i < |timestamps| ==> timestamps[i] != 0.0
    ensures TotalStep(lastUpdate, timestamps)
            == timestamps[|timestamps| - 1] - (if lastUpdate == 0.0 then timestamps[0] else lastUpdate)
    decreases |timestamps|
  {
    var rest := timestamps[1..];
    if rest != [] {
      assert forall i :: 0 <= i < |rest| ==> rest[i] == timestamps[i + 1];
      StepsTelescope(timestamps[0], rest);
      assert rest[|rest| - 1] == timestamps[|timestamps| - 1];
    }
  }

  /** A frame whose timestamp is 0 (or undefined) leaves the clock unset, so
      the next frame again takes no step. */
  lemma {:induction false} UnsetTimestampRestarts(lastUpdate: real, next: real)
    ensures TotalStep(lastUpdate, [0.0, next]) == FrameStep(lastUpdate, 0.0)
  {
    assert [0.0, next][1..] == [next];
    assert [next][1..] == [];
    assert TotalStep(0.0, [next]) == FrameStep(0.0, next) + TotalStep(next, []);
  }
}
