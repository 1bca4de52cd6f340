# Drone environment physics, modelled in Dafny

This project models the physics and reward engine of `DroneEnv`
(`src/drone_env.py`). The engine is a planar drone with on/off motors. Its
state is the six-entry list `[x, vx, y, vy, theta, omega]`, and one `step`
does five things in order:

1. decode the integer action into one flag per motor;
2. add the active motors' force and torque to the velocities;
3. add gravity to the vertical velocity;
4. advance position and orientation by the updated velocities, then wrap the
   orientation with `atan2`;
5. clamp the state into the observation bounds, which also decides `done`,
   and compute the reward.

Three modules:

- `ActionDecoding` (`action_decoding.dfy`) models the expression
  `[int(x) for x in list(bin(action)[2:].zfill(n))]`. Each Python built-in
  becomes a function on strings: `Bin`, `ZFill`, `DigitValue` and
  `ParseDigits`. The module proves that for `0 <= action < 2^n` the result
  is the n-bit binary form of the action, most significant bit first, and
  that it round-trips in both directions.
- `Dynamics` (`dynamics.dfy`) gives one pure function per phase on
  `seq<real>`, plus `StepSpec`, which composes them. The lemmas about a whole
  step live here too.
- `Engine` (`engine.dfy`) holds the class `DroneEnv`. The state is an
  `array<real>` that its methods update in place, as the source updates its
  list. Each method is proved against its phase's function.

Library calls (`math.cos`, `math.sin`, `math.radians`, `math.atan2`,
`np.sqrt`) are fields of a `MathLib` value. Nothing is assumed about what
they return, except where a lemma says so in its `requires`.

Three places where the code behaves differently from what one might expect
from its names and comments; the model follows the code:

- Out-of-range actions. They are not rejected. A negative action makes
  `int('b')` raise, because `bin` writes `-0b…`; the model returns
  `InvalidAction` and leaves the state unchanged. An action of `2^n` or more
  gives a flag list longer than n, and the motor loop reads only the first n
  flags, which are the action's top n bits (`DecodeOversized`).
- The orientation bound. It is `float32(pi)` = 3.1415927410125732421875,
  because the observation space is declared with `dtype=np.float32`.
  `math.pi` is not used.
- The reward distance. It is measured from the origin. The comment at
  line 123 says "from the target", but the configured target `x` and `y` are
  never read.

## Model

| member | source | states |
|---|---|---|
| `ActionDecoding.Pow2` | src/drone_env.py:29 | the action space has 2^n actions, at least one |
| `ActionDecoding.BinaryDigits` | src/drone_env.py:149 | the digits of `bin` are only '0' and '1', at least one of them, with no leading zero for a positive number, and the number is below 2^(number of digits) |
| `ActionDecoding.Bin` | src/drone_env.py:149 | `bin` gives at least three characters, so slicing off the first two leaves at least one |
| `ActionDecoding.ZFill` | src/drone_env.py:149 | `zfill` gives the longer of the input length and the width |
| `ActionDecoding.DigitValue` | src/drone_env.py:149 | `int` on one character succeeds exactly for a decimal digit and gives a value from 0 to 9 |
| `ActionDecoding.ParseDigits` | src/drone_env.py:149 | the comprehension succeeds with one value per character, each that character's digit value, and fails only if some character is not a digit |
| `ActionDecoding.DecodeAction` | src/drone_env.py:149 | when decoding succeeds there are at least as many flags as motors |
| `ActionDecoding.DigitsAsBits` | src/drone_env.py:149 | for 1 <= n and a < 2^n, the zero-padded binary digits of a spell its n-bit form |
| `ActionDecoding.FromToBits` | src/drone_env.py:149 | the n-bit form of a < 2^n, read as binary most significant first, is a |
| `ActionDecoding.ToFromBits` | src/drone_env.py:149 | n flags of 0/1 read as binary give a value below 2^n whose n-bit form is those flags |
| `ActionDecoding.DecodeValid` | src/drone_env.py:149-155 | for 0 <= action < 2^n, decoding gives exactly n flags, each 0 or 1, where flag 0 is the highest bit, and they read back as the action |
| `ActionDecoding.DecodeEncode` | src/drone_env.py:149 | encoding n 0/1 flags as an action and decoding it gives the same flags, leading zeros included |
| `ActionDecoding.DecodeFailsIffNegative` | src/drone_env.py:149 | decoding raises exactly when the action is negative |
| `ActionDecoding.DecodeOversized` | src/drone_env.py:149-155 | for action >= 2^n the flags are the action's full binary form, longer than n, and the first n flags (the ones the motors read) are its top n bits |
| `ActionDecoding.TwoMotorExamples` | src/drone_env.py:149 | with two motors, actions 0, 1, 2, 3 decode to [0,0], [0,1], [1,0], [1,1] |
| `Dynamics.Dt` | src/drone_env.py:17-18 | the timestep, one over the update frequency, is positive |
| `Dynamics.MotorWrench` | src/drone_env.py:155-170 | one motor's contribution: its thrust times the flag, split by the mount angle into a body-frame force, rotated by the orientation, with lever arm times the unrotated lateral force as torque; a motor whose flag is 0 adds no force and no torque, whatever the trigonometric functions return |
| `Dynamics.NetWrench` | src/drone_env.py:153-170 | the contributions of the motors summed in motor order; with every flag 0 the net force and net torque are zero |
| `Dynamics.TorqueIgnoresOrientation` | src/drone_env.py:159-170 | the net torque uses the unrotated body-frame force, so it does not depend on the drone's orientation |
| `Dynamics.Accelerated` | src/drone_env.py:172-179 | folding a force and torque into the state changes only the velocities; positions and orientation stay the same |
| `Dynamics.ActionApplied` | src/drone_env.py:139-179 | the decoded motors' net force and torque, with the motors rotated by the orientation read before any update, folded into the velocities; positions and orientation stay the same |
| `Dynamics.NoWrenchUnchanged` | src/drone_env.py:172-179 | zero force and torque leave the state unchanged |
| `Dynamics.AllOffActionUnchanged` | src/drone_env.py:139-179 | an action with every motor off leaves the state unchanged |
| `Dynamics.GravityApplied` | src/drone_env.py:181-183 | gravity changes only the vertical velocity, by gravity times dt |
| `Dynamics.WrapAngle` | src/drone_env.py:216 | the orientation wrap atan2(sin t, cos t), built from the library functions; its value is not modelled |
| `Dynamics.Integrated` | src/drone_env.py:209-216 | x and y change by their velocities times dt; the orientation becomes the wrap of theta + omega·dt; the velocities stay the same |
| `Dynamics.Enforced` | src/drone_env.py:186-207 | afterwards every component is within its bounds. A clamped even-index component ends at the bound it broke, and the next component ends at 0. An odd-index component whose partner was in bounds ends at the bound it broke. A component that was in bounds, and whose even partner was not clamped, is unchanged |
| `Dynamics.EnforcedAt` | src/drone_env.py:191-205 | one component after enforcement: within its bounds; zero when the even component before it was out of bounds; otherwise clamped, and unchanged if it was in bounds |
| `Dynamics.EnforcedKeepsOrientation` | src/drone_env.py:193-205 | an orientation within its bounds is kept, and the angular velocity after it is then only clamped |
| `Dynamics.EnforcedWithinBoundsUnchanged` | src/drone_env.py:186-207 | on a state already within bounds, enforcement changes nothing and reports no violation |
| `Dynamics.EnforcedIdempotent` | src/drone_env.py:186-207 | enforcing twice is the same as enforcing once, and the second pass reports no violation |
| `Dynamics.OutOfBoundsIffNotWithin` | src/drone_env.py:191-206 | a violation is reported exactly when some component is outside its bounds |
| `Dynamics.Reward` | src/drone_env.py:118-135 | -10 when done. Otherwise it is 1 at distance 0, at most 1 for any distance, 0 exactly at the target distance, and negative exactly beyond it |
| `Dynamics.Distance` | src/drone_env.py:124 | the library square root of x² + y², the distance from the origin; its value is not modelled |
| `Dynamics.RewardFallsWithDistance` | src/drone_env.py:124-126 | the non-terminal reward never increases with distance |
| `Dynamics.StepSpec` | src/drone_env.py:104-116 | a step fails exactly for a negative action, and then leaves the state as it was. A step that succeeds leaves every component within bounds, whatever the earlier phases did, and when done its reward is -10 |
| `Dynamics.BeforeBoundaries` | src/drone_env.py:106-109 | action, then gravity, then the timestep, in that order; the positions advance by the velocities those phases left |
| `Dynamics.StepSpecStepped` | src/drone_env.py:104-116 | for a non-negative action the step runs, leaves the enforced form of the integrated state, and is done exactly when that state had a component out of bounds |
| `Dynamics.SemiImplicitEuler` | src/drone_env.py:104-116 | velocities get the action and then gravity; positions and orientation then advance by the updated velocities |
| `Dynamics.StepDoneIffLeftBounds` | src/drone_env.py:111 | for a non-negative action, done is true exactly when the integrated state left its bounds |
| `Dynamics.StepWallCollision` | src/drone_env.py:200-205 | a drone carried past x = 1 ends at x = 1 with vx = 0, done, and reward -10 |
| `Dynamics.OrientationNeverClamped` | src/drone_env.py:213-216 | if atan2(sin t, cos t) stays within [-pi, pi], the orientation after a step is the wrapped one, and omega is only clamped, never zeroed by the orientation |
| `Dynamics.RestingPhasesUnchanged` | src/drone_env.py:106-109 | at rest, with no gravity and all motors off, the phases before boundary enforcement change nothing (given that the wrap keeps theta) |
| `Dynamics.ZeroActionFixedPoint` | src/drone_env.py:104-116 | with no gravity, action 0 and zero velocities, a step leaves a state within bounds unchanged and is not done (given that the wrap keeps theta) |
| `Engine.DroneEnv.constructor` | src/drone_env.py:10-43 | the engine holds the given configuration, library functions and initial state |
| `Engine.DroneEnv.MotorForces` | src/drone_env.py:153-170 | the loop over the motors leaves the net force and torque `NetWrench` of all motors |
| `Engine.DroneEnv.Accelerate` | src/drone_env.py:172-179 | the in-place velocity updates leave `Accelerated` of the old state |
| `Engine.DroneEnv.ApplyAction` | src/drone_env.py:139-179 | succeeds exactly for a non-negative action. It then adds the decoded motors' net force and torque (summed by `MotorForces`, folded in by `Accelerate`) to the velocities; otherwise the state is unchanged |
| `Engine.DroneEnv.ApplyGravity` | src/drone_env.py:181-183 | the state becomes `GravityApplied` of the old state |
| `Engine.DroneEnv.UpdateStateTimestep` | src/drone_env.py:209-216 | the state becomes `Integrated` of the old state |
| `Engine.DroneEnv.EnsureStateWithinBoundaries` | src/drone_env.py:186-207 | the in-place clamping loop leaves `Enforced` of the old state, and returns true exactly when the old state had a component out of bounds |
| `Engine.DroneEnv.Step` | src/drone_env.py:104-116 | the new state and outcome are those of `StepSpec`; after a step that ran, every component is within bounds; the step fails exactly for negative actions |

## Left out

- `reset` and `seed`, with their process-wide random generator: the constructor takes the initial state as a parameter instead.
- The Gymnasium wrapper, `render`, `close` and `Display`: user interface and an external library. The spaces built at lines 29 and 36-40 are modelled only by `Pow2` and the `Low`/`High` constants.
- Reading the configuration dictionary: a `Config` value is passed in instead. `ValidConfig` requires at least one motor and a positive mass, inertia, update frequency and target distance. With a zero divisor the source would raise, or produce an infinite value.
- Floating point: all arithmetic is over `real`. Rounding, overflow and NaN are not modelled. `Advance` regroups `(force/mass)*dt*0.01` as `((force/mass)*0.01)*dt`, and drops the `* 1` in the gravity update. Both are exact over reals.
- The values of `cos`, `sin`, `radians`, `atan2` and `sqrt`: they are library calls, so they arrive as fields of a `MathLib` value and nothing is proved about what they return.
- OrientationNeverClamped: does not prove that the orientation lies in `(-pi, pi]`. It assumes the wrap's range as a precondition, because `atan2` is not modelled.
- ZeroActionFixedPoint: assumes that atan2(sin theta, cos theta) returns theta for the resting orientation, because atan2 is not modelled.
- Python's `int` on a non-ASCII Unicode digit: not modelled, because `bin` only produces '0', '1' and 'b'.
- The `info` dictionary returned by `step`, the source's `get_state`, and the `observation` array built from the state: the state array is a public field of `DroneEnv`.
- The configured target `x` and `y`: the source reads them but never uses them.
