/** The physics of one tick of the drone environment, as functions on the
    six-element state [x, vx, y, vy, theta, omega].

    Each phase the environment runs in place on its state list is specified
    here by a function from the state before to the state after; the class in
    module Engine runs the phases on an array and is proved against these.
    Real arithmetic stands in for the source's floating point. Trigonometry,
    the degree-to-radian conversion, atan2 and the square root are library
    calls whose values are not modelled: they arrive as the fields of a
    MathLib value and nothing is assumed about them unless a lemma says so.
 */
module Dynamics {
  import opened ActionDecoding

  const StateSize: nat := 6

  /** float32(pi): the observation space is declared with dtype float32, so
      this is the orientation bound it stores. */
  const Pi: real := 3.1415927410125732421875

  /** The observation-space bounds, index by index. */
  const Low: seq<real> := [-1.0, -5.0, -1.0, -5.0, -Pi, -10.0]
  const High: seq<real> := [1.0, 5.0, 1.0, 5.0, Pi, 10.0]

  /** The softening factor on force-driven linear velocity changes. */
  const Damping: real := 0.01

  /** The reward of a step that ended the episode. */
  const TerminalPenalty: real := -10.0

  /** A motor as configured: lever arm, an unused second entry, and the mount
      angle in degrees. */
  datatype Motor = Motor(arm: real, reserved: real, angle: real)

  datatype Config = Config(
    motors: seq<Motor>,
    mass: real,
    inertia: real,
    thrust: real,
    gravity: real,
    updateFrequency: real,
    targetDistance: real)

  /** What the physics needs of a configuration: at least one motor and
      positive divisors. */
  predicate ValidConfig(c: Config)
  {
    |c.motors| >= 1 && c.mass > 0.0 && c.inertia > 0.0 &&
    c.updateFrequency > 0.0 && c.targetDistance > 0.0
  }

  /** The timestep, one over the update frequency. */
  function Dt(c: Config): (dt: real)
    requires c.updateFrequency > 0.0
    ensures dt > 0.0
  {
    1.0 / c.updateFrequency
  }

  /** The floating-point library functions the physics calls. */
  datatype MathLib = MathLib(
    cos: real -> real,
    sin: real -> real,
    radians: real -> real,
    atan2: (real, real) -> real,
    sqrt: real -> real)

  // ---------------------------------------------------------------------
  // Force and torque of the active motors

  /** Net world-frame force and torque. */
  datatype Wrench = Wrench(fx: real, fy: real, torque: real)

  const NoWrench: Wrench := Wrench(0.0, 0.0, 0.0)

  function Plus(a: Wrench, b: Wrench): Wrench
  {
    Wrench(a.fx + b.fx, a.fy + b.fy, a.torque + b.torque)
  }

  /** The contribution of one motor with on/off flag `flag` when the body is
      at orientation `theta`: its body-frame force rotated by theta, and the
      lever arm times the unrotated lateral force as torque. A motor whose
      flag is 0 contributes nothing, whatever the library functions return. */
  function MotorWrench(m: Motor, flag: int, thrust: real, theta: real, lib: MathLib): (r: Wrench)
    ensures flag == 0 ==> r == NoWrench
  {
    var t := flag as real * thrust;
    var bodyX := t * lib.cos(lib.radians(m.angle));
    var bodyY := t * lib.sin(lib.radians(m.angle));
    Wrench(bodyX * lib.cos(theta) - bodyY * lib.sin(theta),
           bodyX * lib.sin(theta) + bodyY * lib.cos(theta),
           m.arm * bodyY)
  }

  /** The sum, in motor order, of the contributions of the first k motors;
      no force and no torque when all of them are off. */
  function NetWrench(motors: seq<Motor>, flags: seq<int>, thrust: real, theta: real, lib: MathLib, k: nat): (r: Wrench)
    requires k <= |motors| && k <= |flags|
    ensures (forall i :: 0 <= i < k ==> flags[i] == 0) ==> r == NoWrench
  {
    if k == 0 then NoWrench
    else Plus(NetWrench(motors, flags, thrust, theta, lib, k - 1),
              MotorWrench(motors[k - 1], flags[k - 1], thrust, theta, lib))
  }

  /** Torque is computed from the body-frame force, so the orientation does
      not affect it. */
  lemma {:induction false} TorqueIgnoresOrientation(motors: seq<Motor>, flags: seq<int>, thrust: real, theta1: real, theta2: real, lib: MathLib, k: nat)
    requires k <= |motors| && k <= |flags|
    ensures NetWrench(motors, flags, thrust, theta1, lib, k).torque == NetWrench(motors, flags, thrust, theta2, lib, k).torque
  {
    if k > 0 {
      TorqueIgnoresOrientation(motors, flags, thrust, theta1, theta2, lib, k - 1);
    }
  }

  // ---------------------------------------------------------------------
  // The phases of a step

  /** A quantity after changing at `rate` for a time `dt`. */
  function Advance(value: real, rate: real, dt: real): real
  {
    value + rate * dt
  }

  lemma AdvanceAtRest(value: real, dt: real)
    ensures Advance(value, 0.0, dt) == value
  {
  }

  /** Force over mass, or torque over inertia. */
  function Acceleration(force: real, mass: real): real
    requires mass > 0.0
  {
    force / mass
  }

  /** A net force and torque folded into the velocities: the linear
      accelerations scaled by the damping factor, the angular one not. */
  function Accelerated(c: Config, s: seq<real>, w: Wrench): (r: seq<real>)
    requires ValidConfig(c) && |s| == StateSize
    ensures |r| == StateSize
    ensures r[0] == s[0] && r[2] == s[2] && r[4] == s[4]
  {
    s[1 := Advance(s[1], Acceleration(w.fx, c.mass) * Damping, Dt(c))]
     [3 := Advance(s[3], Acceleration(w.fy, c.mass) * Damping, Dt(c))]
     [5 := Advance(s[5], Acceleration(w.torque, c.inertia), Dt(c))]
  }

  /** No force and no torque leave the state as it was. */
  lemma NoWrenchUnchanged(c: Config, s: seq<real>)
    requires ValidConfig(c) && |s| == StateSize
    ensures Accelerated(c, s, NoWrench) == s
  {
    var r := Accelerated(c, s, NoWrench);
    assert Acceleration(0.0, c.mass) == 0.0 && Acceleration(0.0, c.inertia) == 0.0;
    assert forall i :: 0 <= i < StateSize ==> r[i] == s[i];
  }

  /** The action's motor forces folded into the velocities, the motors
      rotated by the orientation the state has before the update. */
  function ActionApplied(c: Config, lib: MathLib, s: seq<real>, flags: seq<int>): (r: seq<real>)
    requires ValidConfig(c) && |s| == StateSize && |flags| >= |c.motors|
    ensures |r| == StateSize
    ensures r[0] == s[0] && r[2] == s[2] && r[4] == s[4]
  {
    Accelerated(c, s, NetWrench(c.motors, flags, c.thrust, s[4], lib, |c.motors|))
  }

  /** With every motor off, applying the action changes nothing. */
  lemma AllOffActionUnchanged(c: Config, lib: MathLib, s: seq<real>, flags: seq<int>)
    requires ValidConfig(c) && |s| == StateSize && |flags| >= |c.motors|
    requires forall i :: 0 <= i < |c.motors| ==> flags[i] == 0
    ensures ActionApplied(c, lib, s, flags) == s
  {
    NoWrenchUnchanged(c, s);
  }

  /** Gravity changes the vertical velocity only, by gravity times dt. */
  function GravityApplied(c: Config, s: seq<real>): (r: seq<real>)
    requires ValidConfig(c) && |s| == StateSize
    ensures |r| == StateSize
    ensures forall i :: 0 <= i < StateSize && i != 3 ==> r[i] == s[i]
    ensures r[3] - s[3] == c.gravity * Dt(c)
  {
    s[3 := Advance(s[3], c.gravity, Dt(c))]
  }

  /** The orientation brought back into range by atan2(sin, cos). */
  function WrapAngle(lib: MathLib, theta: real): real
  {
    lib.atan2(lib.sin(theta), lib.cos(theta))
  }

  /** Positions and the orientation advanced by their rates over one
      timestep, the orientation then wrapped; rates are left as they are. */
  function Integrated(c: Config, lib: MathLib, s: seq<real>): (r: seq<real>)
    requires ValidConfig(c) && |s| == StateSize
    ensures |r| == StateSize
    ensures r[1] == s[1] && r[3] == s[3] && r[5] == s[5]
    ensures r[0] - s[0] == s[1] * Dt(c) && r[2] - s[2] == s[3] * Dt(c)
    ensures r[4] == WrapAngle(lib, Advance(s[4], s[5], Dt(c)))
  {
    s[0 := Advance(s[0], s[1], Dt(c))]
     [2 := Advance(s[2], s[3], Dt(c))]
     [4 := WrapAngle(lib, Advance(s[4], s[5], Dt(c)))]
  }

  // ---------------------------------------------------------------------
  // Boundary enforcement

  predicate OutOfBounds(s: seq<real>, i: nat)
    requires |s| == StateSize && i < StateSize
  {
    s[i] < Low[i] || s[i] > High[i]
  }

  predicate AnyOutOfBounds(s: seq<real>)
    requires |s| == StateSize
  {
    exists i :: 0 <= i < StateSize && OutOfBounds(s, i)
  }

  predicate WithinBounds(s: seq<real>)
  {
    |s| == StateSize && forall i :: 0 <= i < StateSize ==> Low[i] <= s[i] <= High[i]
  }

  function Clamp(v: real, lo: real, hi: real): real
  {
    if v < lo then lo else if v > hi then hi else v
  }

  /** The state after boundary enforcement: each component clamped into its
      bounds, and the component after a clamped even-index one zeroed. */
  function Enforced(s: seq<real>): (r: seq<real>)
    requires |s| == StateSize
    ensures WithinBounds(r)
    ensures forall i :: 0 <= i < StateSize && i % 2 == 0 && s[i] < Low[i] ==> r[i] == Low[i] && r[i + 1] == 0.0
    ensures forall i :: 0 <= i < StateSize && i % 2 == 0 && s[i] > High[i] ==> r[i] == High[i] && r[i + 1] == 0.0
    ensures forall i :: 0 <= i < StateSize && i % 2 == 1 && !OutOfBounds(s, i - 1) && s[i] < Low[i] ==> r[i] == Low[i]
    ensures forall i :: 0 <= i < StateSize && i % 2 == 1 && !OutOfBounds(s, i - 1) && s[i] > High[i] ==> r[i] == High[i]
    ensures forall i :: 0 <= i < StateSize && !OutOfBounds(s, i) && (i % 2 == 0 || !OutOfBounds(s, i - 1)) ==> r[i] == s[i]
  {
    seq(StateSize, i requires 0 <= i < StateSize => EnforcedAt(s, i))
  }

  /** Component i after enforcement: zero after a clamped even-index
      component, else at the bound it broke, else unchanged. */
  function EnforcedAt(s: seq<real>, i: nat): (v: real)
    requires |s| == StateSize && i < StateSize
    ensures Low[i] <= v <= High[i]
    ensures i % 2 == 1 && OutOfBounds(s, i - 1) ==> v == 0.0
    ensures !(i % 2 == 1 && OutOfBounds(s, i - 1)) && s[i] < Low[i] ==> v == Low[i]
    ensures !(i % 2 == 1 && OutOfBounds(s, i - 1)) && s[i] > High[i] ==> v == High[i]
    ensures !OutOfBounds(s, i) && !(i % 2 == 1 && OutOfBounds(s, i - 1)) ==> v == s[i]
  {
    assert Low[i] < 0.0 < High[i];
    if i % 2 == 1 && OutOfBounds(s, i - 1) then 0.0 else Clamp(s[i], Low[i], High[i])
  }

  /** Enforcement leaves a state that is already within bounds unchanged,
      and reports no violation for it. */
  lemma EnforcedWithinBoundsUnchanged(s: seq<real>)
    requires WithinBounds(s)
    ensures Enforced(s) == s && !AnyOutOfBounds(s)
  {
    assert forall i :: 0 <= i < StateSize ==> Enforced(s)[i] == s[i];
  }

  /** Enforcing twice is enforcing once, and the second pass reports nothing. */
  lemma EnforcedIdempotent(s: seq<real>)
    requires |s| == StateSize
    ensures Enforced(Enforced(s)) == Enforced(s)
    ensures !AnyOutOfBounds(Enforced(s))
  {
    EnforcedWithinBoundsUnchanged(Enforced(s));
  }

  /** The termination flag is set exactly when the state leaves its bounds. */
  lemma OutOfBoundsIffNotWithin(s: seq<real>)
    requires |s| == StateSize
    ensures AnyOutOfBounds(s) <==> !WithinBounds(s)
  {
    if !WithinBounds(s) {
      var i :| 0 <= i < StateSize && !(Low[i] <= s[i] <= High[i]);
      assert OutOfBounds(s, i);
    }
  }

  // ---------------------------------------------------------------------
  // Reward

  /** The reward of a step: the terminal penalty when the episode ended,
      else a shaping term that is 1 at the origin and falls linearly with
      the distance, reaching 0 at the target distance. */
  function Reward(done: bool, distance: real, targetDistance: real): (r: real)
    requires targetDistance > 0.0
    ensures done ==> r == TerminalPenalty
    ensures !done && distance == 0.0 ==> r == 1.0
    ensures !done && distance >= 0.0 ==> r <= 1.0
    ensures !done ==> (r < 0.0 <==> distance > targetDistance)
    ensures !done ==> (r == 0.0 <==> distance == targetDistance)
  {
    if done then TerminalPenalty else 1.0 - distance / targetDistance
  }

  /** The shaping reward never grows with the distance. */
  lemma RewardFallsWithDistance(d1: real, d2: real, targetDistance: real)
    requires targetDistance > 0.0 && d1 <= d2
    ensures Reward(false, d2, targetDistance) <= Reward(false, d1, targetDistance)
  {
    assert d1 / targetDistance <= d2 / targetDistance;
  }

  /** The distance of the drone from the origin. */
  function Distance(lib: MathLib, s: seq<real>): real
    requires |s| == StateSize
  {
    lib.sqrt(s[0] * s[0] + s[2] * s[2])
  }

  // ---------------------------------------------------------------------
  // One step

  datatype StepOutcome =
    | Stepped(reward: real, done: bool)
    | InvalidAction  // the action decoding raised; nothing was changed

  datatype StepResult = StepResult(state: seq<real>, outcome: StepOutcome)

  /** The state once the action, gravity and the timestep have been applied,
      before boundary enforcement. */
  function BeforeBoundaries(c: Config, lib: MathLib, s: seq<real>, flags: seq<int>): (r: seq<real>)
    requires ValidConfig(c) && |s| == StateSize && |flags| >= |c.motors|
    ensures |r| == StateSize
    ensures r[0] == Advance(s[0], r[1], Dt(c)) && r[2] == Advance(s[2], r[3], Dt(c))
  {
    Integrated(c, lib, GravityApplied(c, ActionApplied(c, lib, s, flags)))
  }

  /** One step: action, gravity, timestep, boundaries, reward, in that order. */
  function StepSpec(c: Config, lib: MathLib, s: seq<real>, action: int): (r: StepResult)
    requires ValidConfig(c) && |s| == StateSize
    ensures r.outcome.InvalidAction? <==> action < 0
    ensures r.outcome.InvalidAction? ==> r.state == s
    ensures r.outcome.Stepped? ==> WithinBounds(r.state)
    ensures r.outcome.Stepped? && r.outcome.done ==> r.outcome.reward == TerminalPenalty
  {
    DecodeFailsIffNegative(action, |c.motors|);
    match DecodeAction(action, |c.motors|)
    case None => StepResult(s, InvalidAction)
    case Some(flags) =>
      var p := BeforeBoundaries(c, lib, s, flags);
      var e := Enforced(p);
      var done := AnyOutOfBounds(p);
      StepResult(e, Stepped(Reward(done, Distance(lib, e), c.targetDistance), done))
  }

  /** Velocities are updated before positions, and positions advance by the
      updated velocities (semi-implicit Euler). */
  lemma SemiImplicitEuler(c: Config, lib: MathLib, s: seq<real>, flags: seq<int>)
    requires ValidConfig(c) && |s| == StateSize && |flags| >= |c.motors|
    ensures var p := BeforeBoundaries(c, lib, s, flags);
      var w := NetWrench(c.motors, flags, c.thrust, s[4], lib, |c.motors|);
      p[1] == Advance(s[1], Acceleration(w.fx, c.mass) * Damping, Dt(c)) &&
      p[3] == Advance(Advance(s[3], Acceleration(w.fy, c.mass) * Damping, Dt(c)), c.gravity, Dt(c)) &&
      p[5] == Advance(s[5], Acceleration(w.torque, c.inertia), Dt(c)) &&
      p[0] == Advance(s[0], p[1], Dt(c)) &&
      p[2] == Advance(s[2], p[3], Dt(c)) &&
      p[4] == WrapAngle(lib, Advance(s[4], p[5], Dt(c)))
  {
    var w := NetWrench(c.motors, flags, c.thrust, s[4], lib, |c.motors|);
    var a := ActionApplied(c, lib, s, flags);
    assert a == Accelerated(c, s, w);
    var g := GravityApplied(c, a);
    assert g[0] == a[0] == s[0] && g[1] == a[1] && g[2] == a[2] == s[2] && g[4] == a[4] == s[4] && g[5] == a[5];
    assert BeforeBoundaries(c, lib, s, flags) == Integrated(c, lib, g);
  }

  /** A step ends the episode exactly when the state it integrated left its
      bounds. */
  lemma StepDoneIffLeftBounds(c: Config, lib: MathLib, s: seq<real>, action: int)
    requires ValidConfig(c) && |s| == StateSize && action >= 0
    ensures DecodeAction(action, |c.motors|).Some?
    ensures StepSpec(c, lib, s, action).outcome.Stepped?
    ensures StepSpec(c, lib, s, action).outcome.done <==>
            !WithinBounds(BeforeBoundaries(c, lib, s, DecodeAction(action, |c.motors|).value))
  {
    DecodeFailsIffNegative(action, |c.motors|);
    OutOfBoundsIffNotWithin(BeforeBoundaries(c, lib, s, DecodeAction(action, |c.motors|).value));
  }

  /** A drone driven past the right wall stops there: x at the bound, its
      velocity zero, the episode over. */
  lemma StepWallCollision(c: Config, lib: MathLib, s: seq<real>, action: int)
    requires ValidConfig(c) && |s| == StateSize && action >= 0
    requires DecodeAction(action, |c.motors|).Some?
    requires BeforeBoundaries(c, lib, s, DecodeAction(action, |c.motors|).value)[0] > High[0]
    ensures StepSpec(c, lib, s, action).state[0] == High[0]
    ensures StepSpec(c, lib, s, action).state[1] == 0.0
    ensures StepSpec(c, lib, s, action).outcome == Stepped(TerminalPenalty, true)
  {
    var p := BeforeBoundaries(c, lib, s, DecodeAction(action, |c.motors|).value);
    assert OutOfBounds(p, 0);
  }

  /** The state and outcome of a step for an action that decodes. */
  lemma StepSpecStepped(c: Config, lib: MathLib, s: seq<real>, action: int) returns (p: seq<real>)
    requires ValidConfig(c) && |s| == StateSize && action >= 0
    ensures DecodeAction(action, |c.motors|).Some?
    ensures p == BeforeBoundaries(c, lib, s, DecodeAction(action, |c.motors|).value)
    ensures StepSpec(c, lib, s, action).state == Enforced(p)
    ensures StepSpec(c, lib, s, action).outcome.Stepped?
    ensures StepSpec(c, lib, s, action).outcome.done == AnyOutOfBounds(p)
  {
    DecodeFailsIffNegative(action, |c.motors|);
    p := BeforeBoundaries(c, lib, s, DecodeAction(action, |c.motors|).value);
  }

  /** An orientation within its bounds is kept, and then the angular
      velocity is only clamped. */
  lemma EnforcedKeepsOrientation(p: seq<real>)
    requires |p| == StateSize && !OutOfBounds(p, 4)
    ensures Enforced(p)[4] == p[4]
    ensures Enforced(p)[5] == Clamp(p[5], Low[5], High[5])
  {
    assert Enforced(p)[4] == EnforcedAt(p, 4) && Enforced(p)[5] == EnforcedAt(p, 5);
  }

  /** If atan2(sin t, cos t) stays within [-pi, pi] (float32 pi), the
      wrapped orientation is never clamped, so the orientation left by a step is the wrapped one
      and a clamp never zeroes the angular velocity. */
  lemma OrientationNeverClamped(c: Config, lib: MathLib, s: seq<real>, action: int)
    requires ValidConfig(c) && |s| == StateSize && action >= 0
    requires forall t :: -Pi <= WrapAngle(lib, t) <= Pi
    ensures DecodeAction(action, |c.motors|).Some?
    ensures var p := BeforeBoundaries(c, lib, s, DecodeAction(action, |c.motors|).value);
      StepSpec(c, lib, s, action).state[4] == p[4] &&
      StepSpec(c, lib, s, action).state[5] == Clamp(p[5], Low[5], High[5])
  {
    var p := StepSpecStepped(c, lib, s, action);
    var flags := DecodeAction(action, |c.motors|).value;
    var g := GravityApplied(c, ActionApplied(c, lib, s, flags));
    var t := Advance(g[4], g[5], Dt(c));
    assert p[4] == WrapAngle(lib, t);
    assert -Pi <= WrapAngle(lib, t) <= Pi;
    EnforcedKeepsOrientation(p);
  }

  /** At rest, with no gravity and every motor off, the phases before
      boundary enforcement change nothing once the wrap keeps the orientation. */
  lemma RestingPhasesUnchanged(c: Config, lib: MathLib, s: seq<real>, flags: seq<int>)
    requires ValidConfig(c) && |s| == StateSize && |flags| >= |c.motors| && c.gravity == 0.0
    requires forall i :: 0 <= i < |c.motors| ==> flags[i] == 0
    requires s[1] == 0.0 && s[3] == 0.0 && s[5] == 0.0
    requires WrapAngle(lib, s[4]) == s[4]
    ensures BeforeBoundaries(c, lib, s, flags) == s
  {
    var dt := Dt(c);
    AllOffActionUnchanged(c, lib, s, flags);
    AdvanceAtRest(s[0], dt);
    AdvanceAtRest(s[2], dt);
    AdvanceAtRest(s[3], dt);
    AdvanceAtRest(s[4], dt);
    var g := GravityApplied(c, s);
    assert g == s by {
      assert g[3] == Advance(s[3], 0.0, dt);
      assert forall i :: 0 <= i < StateSize ==> g[i] == s[i];
    }
    var p := Integrated(c, lib, s);
    assert p == s by {
      assert p[0] == Advance(s[0], 0.0, dt) && p[2] == Advance(s[2], 0.0, dt);
      assert p[4] == WrapAngle(lib, Advance(s[4], 0.0, dt));
      assert forall i :: 0 <= i < StateSize ==> p[i] == s[i];
    }
  }

  /** With no gravity, every motor off and the drone at rest, a step leaves
      a state within bounds as it was, provided the wrap leaves its
      orientation alone. */
  lemma ZeroActionFixedPoint(c: Config, lib: MathLib, s: seq<real>)
    requires ValidConfig(c) && WithinBounds(s) && c.gravity == 0.0
    requires s[1] == 0.0 && s[3] == 0.0 && s[5] == 0.0
    requires WrapAngle(lib, s[4]) == s[4]
    ensures StepSpec(c, lib, s, 0) == StepResult(s, Stepped(Reward(false, Distance(lib, s), c.targetDistance), false))
  {
    var n := |c.motors|;
    DecodeValid(0, n);
    ZerosBits(n);
    var flags := DecodeAction(0, n).value;
    assert forall i :: 0 <= i < n ==> flags[i] == 0;
    RestingPhasesUnchanged(c, lib, s, flags);
    EnforcedWithinBoundsUnchanged(s);
  }
}
