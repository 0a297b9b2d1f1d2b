/** The `SolarSystem` object: a list of bodies it updates in place, the
    frame range of the animation, the frame being computed, and (as a ghost
    record of what the host application receives) the keyframes inserted so
    far.  When it completes, each method is proved to compute a function
    of `Schedule`: `AccelerateDueToGravity` computes `Interact`,
    `CalculateAllBodyInteractions` computes `InteractionPhase`, `UpdateAll`
    computes `UpdatePhase`, `AnimateFrame` and `StepAnimation` compute
    `Frame`, and `CreateAnimation` computes `Run`.  `AddBody` only
    appends. */
module SolarSystems {
  import opened Vectors
  import opened StellarBodies
  import opened Pairs
  import opened Sorting
  import opened Schedule

  class SolarSystem {
    const frameStart: int
    const frameEnd: int
    var bodies: seq<StellarBody>
    var currentFrame: int
    ghost var keyframes: seq<Keyframe>

    /** `SolarSystem(size, frame_start=1, frame_end=250)`: no bodies yet. */
    constructor (frameStart: int := 1, frameEnd: int := 250)
      ensures this.frameStart == frameStart && this.frameEnd == frameEnd
      ensures bodies == [] && keyframes == []
    {
      this.frameStart := frameStart;
      this.frameEnd := frameEnd;
      bodies := [];
      currentFrame := frameStart;
      keyframes := [];
    }

    /** `add_body`: append, nothing else. */
    method AddBody(body: StellarBody)
      modifies this`bodies
      ensures bodies == old(bodies) + [body]
    {
      bodies := bodies + [body];
    }

    /** `bodies[i].accelerate_due_to_gravity(bodies[j])`: the force is
        computed once, then the loop over the two bodies adds it to the
        first body's velocity and takes it from the second's, each divided
        by that body's mass.  A zero distance raises before anything
        changes. */
    method AccelerateDueToGravity(i: nat, j: nat, magnitude: Vec3 -> real) returns (outcome: Result<()>)
      requires i < j < |bodies|
      modifies this`bodies
      ensures outcome.Ok? <==> Interact(old(bodies), i, j, magnitude).Ok?
      ensures outcome.Ok? ==> bodies == Interact(old(bodies), i, j, magnitude).value
      ensures outcome.ZeroDivisionError? ==> bodies == old(bodies)
    {
      var distance := bodies[j].position.Minus(bodies[i].position);
      var distanceMag := magnitude(distance);
      if distanceMag == 0.0 {
        return ZeroDivisionError;
      }
      var force := GravityForce(bodies[i], bodies[j], distanceMag);
      var reverse := 1.0;
      var both := [i, j];
      for t := 0 to 2
        invariant reverse == if t == 0 then 1.0 else -1.0
        invariant |bodies| == |old(bodies)|
        invariant forall k :: 0 <= k < |bodies| && k != i && k != j ==> bodies[k] == old(bodies)[k]
        invariant bodies[i] == if t >= 1 then Accelerated(old(bodies)[i], force, 1.0) else old(bodies)[i]
        invariant bodies[j] == if t >= 2 then Accelerated(old(bodies)[j], force, -1.0) else old(bodies)[j]
      {
        var k := both[t];
        var acceleration := force.Over(bodies[k].mass);
        bodies := bodies[k := bodies[k].(velocity := bodies[k].velocity.Plus(acceleration.Times(reverse)))];
        reverse := -1.0;
      }
      assert bodies == old(bodies)[i := Accelerated(old(bodies)[i], force, 1.0)]
                                  [j := Accelerated(old(bodies)[j], force, -1.0)];
      outcome := Ok(());
    }

    /** The inner loop of `_calculate_all_body_interactions` for outer
        position `first`: `first` with each body after it, in list order. */
    method InteractWithLater(first: nat, magnitude: Vec3 -> real) returns (outcome: Result<()>)
      requires first < |bodies|
      modifies this`bodies
      ensures outcome.Ok? <==> RowCalls(old(bodies), first, first + 1, magnitude).Ok?
      ensures outcome.Ok? ==> bodies == RowCalls(old(bodies), first, first + 1, magnitude).value
      ensures OnlyVelocitiesChanged(old(bodies), bodies)
    {
      var n := |bodies|;
      outcome := Ok(());
      var second := first + 1;
      while second < n
        invariant first < second <= n && |bodies| == n && outcome.Ok?
        invariant OnlyVelocitiesChanged(old(bodies), bodies)
        invariant RowCalls(old(bodies), first, first + 1, magnitude) == RowCalls(bodies, first, second, magnitude)
      {
        RowCallsStep(bodies, first, second, magnitude);
        ghost var start := bodies;
        outcome := AccelerateDueToGravity(first, second, magnitude);
        if outcome.ZeroDivisionError? {
          return;
        }
        OnlyVelocitiesChangedTrans(old(bodies), start, bodies);
        second := second + 1;
      }
      RowCallsDone(bodies, first, second, magnitude);
    }

    /** `_calculate_all_body_interactions`: for each body, each body after
        it in the list; the list order does not change during the phase.
        A division by zero propagates at once, leaving the velocities of
        the pairs already done changed. */
    method CalculateAllBodyInteractions(magnitude: Vec3 -> real) returns (outcome: Result<()>)
      modifies this`bodies
      ensures outcome.Ok? <==> InteractionPhase(old(bodies), magnitude).Ok?
      ensures outcome.Ok? ==> bodies == InteractionPhase(old(bodies), magnitude).value
      ensures OnlyVelocitiesChanged(old(bodies), bodies)
    {
      var n := |bodies|;
      AllPairsWithin(n);
      outcome := Ok(());
      var idx := 0;
      while idx < n
        invariant 0 <= idx <= n && |bodies| == n && outcome.Ok?
        invariant OnlyVelocitiesChanged(old(bodies), bodies)
        invariant PairsWithin(PairsFrom(idx, n), n)
        invariant InteractionPhase(old(bodies), magnitude) == ApplyPairs(bodies, PairsFrom(idx, n), magnitude)
      {
        RowWithin(idx, idx + 1, n);
        assert RowCalls(bodies, idx, idx + 1, magnitude) == ApplyPairs(bodies, Row(idx, idx + 1, n), magnitude);
        ApplyPairsConcat(bodies, Row(idx, idx + 1, n), PairsFrom(idx + 1, n), magnitude);
        ghost var start := bodies;
        outcome := InteractWithLater(idx, magnitude);
        if outcome.ZeroDivisionError? {
          return;
        }
        OnlyVelocitiesChangedTrans(old(bodies), start, bodies);
        idx := idx + 1;
      }
      assert PairsFrom(n, n) == [];
    }

    /** `_update_all`: sort the list by x, then move each body and insert
        its keyframe for the current frame, in the sorted order. */
    method UpdateAll()
      modifies this`bodies, this`keyframes
      ensures bodies == UpdatePhase(old(bodies), currentFrame).0
      ensures keyframes == old(keyframes) + UpdatePhase(old(bodies), currentFrame).1
    {
      bodies := SortByX(bodies);
      ghost var sorted := bodies;
      for k := 0 to |bodies|
        invariant |bodies| == |sorted|
        invariant forall m :: 0 <= m < k ==> bodies[m] == Move(sorted[m])
        invariant forall m :: k <= m < |sorted| ==> bodies[m] == sorted[m]
        invariant |keyframes| == |old(keyframes)| + k
        invariant keyframes[..|old(keyframes)|] == old(keyframes)
        invariant forall m :: 0 <= m < k ==>
                    keyframes[|old(keyframes)| + m] == Keyframe(currentFrame, bodies[m].name, bodies[m].position)
      {
        bodies := bodies[k := Move(bodies[k])];
        keyframes := keyframes + [Keyframe(currentFrame, bodies[k].name, bodies[k].position)];
      }
      assert bodies == UpdatePhase(old(bodies), currentFrame).0;
      assert keyframes == old(keyframes) + UpdatePhase(old(bodies), currentFrame).1;
    }

    /** One pass of the body of the frame loop of `create_animation`, with
        `current_frame` set to `frame`: the interaction phase, then the
        update phase, which is one `Frame`. */
    method AnimateFrame(frame: int, magnitude: Vec3 -> real) returns (outcome: Result<()>)
      modifies this`bodies, this`keyframes, this`currentFrame
      ensures currentFrame == frame
      ensures outcome.Ok? <==> Frame(old(bodies), frame, magnitude).Ok?
      ensures outcome.Ok? ==>
                && bodies == Frame(old(bodies), frame, magnitude).value.0
                && keyframes == old(keyframes) + Frame(old(bodies), frame, magnitude).value.1
      ensures outcome.ZeroDivisionError? ==>
                keyframes == old(keyframes) && OnlyVelocitiesChanged(old(bodies), bodies)
    {
      currentFrame := frame;
      outcome := CalculateAllBodyInteractions(magnitude);
      if outcome.ZeroDivisionError? {
        return;
      }
      UpdateAll();
    }

    /** The same pass seen from the frame loop: `remaining`, the outcome of
        the frames still to run from `frame` on, is that of the frames to
        run after it. */
    method StepAnimation(frame: int, magnitude: Vec3 -> real,
                         ghost remaining: Result<(seq<StellarBody>, seq<Keyframe>)>)
      returns (outcome: Result<()>)
      requires frame < frameEnd
      requires remaining == Animate(bodies, keyframes, frame, frameEnd, magnitude)
      modifies this`bodies, this`keyframes, this`currentFrame
      ensures currentFrame == frame
      ensures outcome.Ok? <==> Frame(old(bodies), frame, magnitude).Ok?
      ensures outcome.Ok? ==>
                && bodies == Frame(old(bodies), frame, magnitude).value.0
                && keyframes == old(keyframes) + Frame(old(bodies), frame, magnitude).value.1
      ensures outcome.ZeroDivisionError? ==>
                keyframes == old(keyframes) && OnlyVelocitiesChanged(old(bodies), bodies)
      ensures outcome.ZeroDivisionError? ==> remaining.ZeroDivisionError?
      ensures outcome.Ok? ==> remaining == Animate(bodies, keyframes, frame + 1, frameEnd, magnitude)
    {
      AnimateStep(bodies, keyframes, frame, frameEnd, magnitude);
      outcome := AnimateFrame(frame, magnitude);
    }

    /** `create_animation`: `current_frame` runs over
        `range(frame_start, frame_end)`; each frame completes its
        interaction phase before its update phase.  A division by zero ends
        the animation early. */
    method CreateAnimation(magnitude: Vec3 -> real) returns (outcome: Result<()>)
      modifies this`bodies, this`keyframes, this`currentFrame
      ensures outcome.Ok? <==> Run(old(bodies), frameStart, frameEnd, magnitude).Ok?
      ensures outcome.Ok? ==>
                && bodies == Run(old(bodies), frameStart, frameEnd, magnitude).value.0
                && keyframes == old(keyframes) + Run(old(bodies), frameStart, frameEnd, magnitude).value.1
      ensures frameStart >= frameEnd ==> currentFrame == old(currentFrame) && outcome.Ok?
      ensures outcome.Ok? && frameStart < frameEnd ==> currentFrame == frameEnd - 1
      ensures outcome.ZeroDivisionError? ==> frameStart <= currentFrame < frameEnd
    {
      outcome := Ok(());
      var frame := frameStart;
      ghost var remaining := Animate(bodies, keyframes, frame, frameEnd, magnitude);
      AnimateIsRun(bodies, keyframes, frameStart, frameEnd, magnitude);
      while frame < frameEnd
        invariant frame == frameStart || frameStart < frame <= frameEnd
        invariant frame == frameStart ==> currentFrame == old(currentFrame)
        invariant frame > frameStart ==> currentFrame == frame - 1
        invariant remaining == Animate(bodies, keyframes, frame, frameEnd, magnitude)
        decreases frameEnd - frame
      {
        outcome := StepAnimation(frame, magnitude, remaining);
        if outcome.ZeroDivisionError? {
          return;
        }
        frame := frame + 1;
      }
      outcome := Ok(());
      PrependOk(old(keyframes), Run(old(bodies), frameStart, frameEnd, magnitude), bodies, keyframes);
    }
  }
}
