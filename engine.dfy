/** The drone environment's physics engine: an object that owns the six-entry
    state [x, vx, y, vy, theta, omega] and updates it in place, one phase at a
    time, as `step` does. Each method is proved against the function of
    module Dynamics that specifies its phase.
 */
module Engine {
  import opened ActionDecoding
  import opened Dynamics

  class DroneEnv {
    const cfg: Config
    const lib: MathLib
    /** The state list; `get_state` hands out this very object. */
    const state: array<real>

    ghost predicate Valid()
    {
      ValidConfig(cfg) && state.Length == StateSize
    }

    /** An engine with the given configuration and initial state (chosen by
        the caller in place of the random reset). */
    constructor (cfg: Config, lib: MathLib, initial: seq<real>)
      requires ValidConfig(cfg) && |initial| == StateSize
      ensures Valid() && fresh(state)
      ensures this.cfg == cfg && this.lib == lib && state[..] == initial
    {
      this.cfg := cfg;
      this.lib := lib;
      state := new real[StateSize](i requires 0 <= i < StateSize => initial[i]);
    }

    /** The net world-frame force and the net torque of the motors under
        `flags`, summed motor by motor with the body at orientation `theta`. */
    method MotorForces(flags: seq<int>, theta: real) returns (fx: real, fy: real, torque: real)
      requires Valid() && |flags| >= |cfg.motors|
      ensures Wrench(fx, fy, torque) == NetWrench(cfg.motors, flags, cfg.thrust, theta, lib, |cfg.motors|)
    {
      fx, fy, torque := 0.0, 0.0, 0.0;
      var i := 0;
      while i < |cfg.motors|
        invariant 0 <= i <= |cfg.motors|
        invariant Wrench(fx, fy, torque) == NetWrench(cfg.motors, flags, cfg.thrust, theta, lib, i)
      {
        var contribution := MotorWrench(cfg.motors[i], flags[i], cfg.thrust, theta, lib);
        fx, fy := fx + contribution.fx, fy + contribution.fy;
        torque := torque + contribution.torque;
        i := i + 1;
      }
    }

    /** Decodes the action and folds the active motors' force and torque into
        the velocities. A negative action makes the decoding raise before
        anything is changed. */
    method ApplyAction(action: int) returns (ok: bool)
      requires Valid()
      modifies state
      ensures ok <==> action >= 0
      ensures ok ==> DecodeAction(action, |cfg.motors|).Some?
      ensures ok ==> state[..] == ActionApplied(cfg, lib, old(state[..]), DecodeAction(action, |cfg.motors|).value)
      ensures !ok ==> state[..] == old(state[..])
    {
      ghost var before := state[..];
      var theta := state[4];
      var decoded := DecodeAction(action, |cfg.motors|);
      DecodeFailsIffNegative(action, |cfg.motors|);
      if decoded.None? {
        return false;
      }
      var flags := decoded.value;
      var fx, fy, torque := MotorForces(flags, theta);
      Accelerate(fx, fy, torque);
      assert state[..] == ActionApplied(cfg, lib, before, flags);
      ok := true;
    }

    /** The net force, damped, and the net torque folded into the linear and
        angular velocities over one timestep. */
    method Accelerate(fx: real, fy: real, torque: real)
      requires Valid()
      modifies state
      ensures state[..] == Accelerated(cfg, old(state[..]), Wrench(fx, fy, torque))
    {
      ghost var after := Accelerated(cfg, state[..], Wrench(fx, fy, torque));
      var dt := Dt(cfg);
      state[1] := Advance(state[1], Acceleration(fx, cfg.mass) * Damping, dt);
      state[3] := Advance(state[3], Acceleration(fy, cfg.mass) * Damping, dt);
      state[5] := Advance(state[5], Acceleration(torque, cfg.inertia), dt);
      assert state[1] == after[1] && state[3] == after[3] && state[5] == after[5];
      assert state[..] == after;
    }

    /** Gravity folded into the vertical velocity. */
    method ApplyGravity()
      requires Valid()
      modifies state
      ensures state[..] == GravityApplied(cfg, old(state[..]))
    {
      state[3] := Advance(state[3], cfg.gravity, Dt(cfg));
    }

    /** Positions and orientation advanced by the (already updated) rates,
        then the orientation wrapped by atan2. */
    method UpdateStateTimestep()
      requires Valid()
      modifies state
      ensures state[..] == Integrated(cfg, lib, old(state[..]))
    {
      var dt := Dt(cfg);
      state[0] := Advance(state[0], state[1], dt);
      state[2] := Advance(state[2], state[3], dt);
      state[4] := Advance(state[4], state[5], dt);
      state[4] := WrapAngle(lib, state[4]);
    }

    /** Clamps every component into its bounds, zeroing the component after
        a clamped even-index one, and reports whether any clamp fired. */
    method EnsureStateWithinBoundaries() returns (done: bool)
      requires Valid()
      modifies state
      ensures state[..] == Enforced(old(state[..]))
      ensures done == AnyOutOfBounds(old(state[..]))
    {
      ghost var s0 := state[..];
      done := false;
      var i := 0;
      while i < state.Length
        invariant 0 <= i <= StateSize
        invariant forall k :: 0 <= k < i ==> state[k] == EnforcedAt(s0, k)
        invariant i < StateSize ==>
          state[i] == if i % 2 == 1 && OutOfBounds(s0, i - 1) then 0.0 else s0[i]
        invariant forall k :: i < k < StateSize ==> state[k] == s0[k]
        invariant done <==> exists k :: 0 <= k < i && OutOfBounds(s0, k)
      {
        assert Low[i] < 0.0 < High[i];
        if state[i] < Low[i] {
          state[i] := Low[i];
          if i % 2 == 0 {
            state[i + 1] := 0.0;
          }
          done := true;
        } else if state[i] > High[i] {
          state[i] := High[i];
          if i % 2 == 0 {
            state[i + 1] := 0.0;
          }
          done := true;
        }
        i := i + 1;
      }
      assert state[..] == Enforced(s0);
    }

    /** One tick: action, gravity, timestep, boundaries, then the reward of
        the resulting state. */
    method Step(action: int) returns (outcome: StepOutcome)
      requires Valid()
      modifies state
      ensures StepResult(state[..], outcome) == StepSpec(cfg, lib, old(state[..]), action)
      ensures outcome.Stepped? ==> WithinBounds(state[..])
      ensures outcome.InvalidAction? <==> action < 0
    {
      ghost var s0 := state[..];
      var ok := ApplyAction(action);
      if !ok {
        return InvalidAction;
      }
      ghost var flags := DecodeAction(action, |cfg.motors|).value;
      ApplyGravity();
      UpdateStateTimestep();
      assert state[..] == BeforeBoundaries(cfg, lib, s0, flags);
      var done := EnsureStateWithinBoundaries();
      var distance := Distance(lib, state[..]);
      outcome := Stepped(Reward(done, distance, cfg.targetDistance), done);
    }
  }
}
