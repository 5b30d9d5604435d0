# Lerping movement component, modelled in Dafny

This project models `LerpingMovementComponent` of the Glide game engine. The
component moves its entity toward a target point that anyone can set at any
time. On each tick it lerps the transform's current position toward the target.
The lerp fraction is the elapsed seconds times the component's fixed `speed`.
The engine rounds each coordinate with `glideRound`, which is defined
elsewhere. A small step can therefore round back onto the current position,
and the entity would never move. To guard against that, the component re-lerps its own unrounded
candidate toward the target while the rounded candidate still equals the
current position. A counter bounds this: it starts at 10 and the loop runs
while it is `>= 0`. At the end the component writes the last unrounded
candidate to the transform's `proposedPosition`.

Files:

- `geometry.dfy` (module `Geometry`): points with `real` coordinates, the
  lerp, and the n-fold compounded lerp `Compounded`. Lemmas give its closed
  form `target + (start - target) * (1 - t)^n`, its fixed points (at the
  target, zero fraction, full fraction), and its convergence (no coordinate
  moves away from the target for `0 <= t <= 2`; every non-zero offset strictly
  shrinks for `0 < t < 2`).
- `lerping_movement.dfy` (module `LerpingMovement`): the `Transform` and
  `LerpingMovementComponent` classes and the update method `DidUpdate` with
  its retry loop. Beside them are the pure functions that specify the loop.
  `FirstMove` and `Attempts` give the number of lerps one update evaluates: the
  first count that rounds off the current position, at most `MaxLerps = 12`.
  `Proposal` is the unrounded compounded lerp at that count. `DidUpdate` is
  proved to write exactly `Proposal(...)`, and the lemmas state what the source
  promises about that value.

The engine's rounding is a parameter `round: real -> real` of `DidUpdate` and
of the specification functions. Nothing is assumed about it, so every
property holds for any rounding rule.

Two details of the code shape the model:

- The component stores the unrounded `newLerped`
  (`LerpingMovementComponent.swift:71`), not the rounded `lerped`, so
  `Proposal` applies no rounding.
- The counter starts at 10 and the guard is `numberOfTries >= 0` (:61, :65),
  so the loop body runs up to 11 times and up to 12 lerps are evaluated
  (`MaxLerps = 12`). `Attempts` ranges over `1..12`, and the loop runs
  `Attempts - 1` times.

## Model

| member | source | states |
|---|---|---|
| `Geometry.Lerp` | Shared/Components/Movement/LerpingMovementComponent.swift:62-67 | the `lerp(destination:time:)` calls: one lerp scales each coordinate's offset from the destination by `1 - time` |
| `Geometry.LerpFixedPoints` | Shared/Components/Movement/LerpingMovementComponent.swift:62-67 | a zero fraction leaves the start point, a full fraction lands on the destination, and the destination is a fixed point |
| `Geometry.Compounded` | Shared/Components/Movement/LerpingMovementComponent.swift:62-70 | the repeated lerp of the loop: n lerps in a row from the start, each from the previous unrounded result; it acts on the x and y coordinates independently (`CompoundedCoord`) |
| `Geometry.CoordClosedForm` | Shared/Components/Movement/LerpingMovementComponent.swift:62-70 | one coordinate after n lerps is `b + (a - b) * (1 - t)^n` |
| `Geometry.CompoundedClosedForm` | Shared/Components/Movement/LerpingMovementComponent.swift:57-70 | the point after n compounded lerps with fraction `t` is `target + (start - target) * (1 - t)^n` per coordinate |
| `Geometry.CompoundedAtTarget` | Shared/Components/Movement/LerpingMovementComponent.swift:62-70 | lerping any number of times from the target stays on the target |
| `Geometry.CompoundedZeroRate` | Shared/Components/Movement/LerpingMovementComponent.swift:57-70 | with fraction 0 any number of lerps leaves the start point unchanged |
| `Geometry.CompoundedFullRate` | Shared/Components/Movement/LerpingMovementComponent.swift:57-70 | with fraction 1 one or more lerps land exactly on the target |
| `Geometry.CompoundedNonDivergent` | Shared/Components/Movement/LerpingMovementComponent.swift:57-70 | for `0 <= t <= 2`, no coordinate of a compounded lerp is farther from the target than the start's |
| `Geometry.CompoundedConverges` | Shared/Components/Movement/LerpingMovementComponent.swift:57-70 | for `0 < t < 2` and at least one lerp, every coordinate off the target strictly approaches it |
| `LerpingMovement.FirstMove` | Shared/Components/Movement/LerpingMovementComponent.swift:61-70 | the lerp count searched from `n` is the least count in `n..12` that rounds off the current position, or 12 when none does; every count before it rounds back onto the current position |
| `LerpingMovement.Attempts` | Shared/Components/Movement/LerpingMovementComponent.swift:61-70 | an update evaluates between 1 and 12 lerps; it stops at the first rounded candidate that differs from the current position, or when the budget is spent |
| `LerpingMovement.RoundPoint` | Shared/Components/Movement/LerpingMovementComponent.swift:64 | the rounded candidate `CGPoint(x: newLerped.x.glideRound, y: newLerped.y.glideRound)` of :64 and :68; it equals its input exactly when rounding leaves both coordinates unchanged |
| `LerpingMovement.Proposal` | Shared/Components/Movement/LerpingMovementComponent.swift:57-71 | the value an update stores: the unrounded `Compounded` at `Attempts` lerps; on exit its rounded form differs from the current position or the retry budget is exhausted |
| `LerpingMovement.ProposalWithoutStall` | Shared/Components/Movement/LerpingMovementComponent.swift:62-65 | if the first rounded lerp differs from the current position, the loop does not run and the first lerp is proposed |
| `LerpingMovement.ProgressIfPossible` | Shared/Components/Movement/LerpingMovementComponent.swift:61-70 | if any count of lerps within the budget rounds off the current position, the update stops no later than it and its rounded proposal differs from the current position |
| `LerpingMovement.ProposalClosedForm` | Shared/Components/Movement/LerpingMovementComponent.swift:57-70 | after the loop ran `k - 1` times the proposal is the k-fold compounded lerp, `target + (current - target) * (1 - t)^k` per coordinate |
| `LerpingMovement.ProposalAtTarget` | Shared/Components/Movement/LerpingMovementComponent.swift:62-71 | when the current position equals the target, the proposal is the target, for every fraction and rounding |
| `LerpingMovement.ProposalZeroRate` | Shared/Components/Movement/LerpingMovementComponent.swift:57-71 | with a zero fraction the proposal is the current position |
| `LerpingMovement.ProposalNonDivergent` | Shared/Components/Movement/LerpingMovementComponent.swift:57-71 | for `0 <= t <= 2` the proposal is no farther from the target than the current position, per coordinate |
| `LerpingMovement.ProposalConverges` | Shared/Components/Movement/LerpingMovementComponent.swift:57-71 | for `0 < t < 2` the proposal is strictly closer to the target in every coordinate where the current position is off it |
| `LerpingMovement.LerpingMovementComponent.constructor` | Shared/Components/Movement/LerpingMovementComponent.swift:40-43 | the new component has the given speed, no target, and no transform attached |
| `LerpingMovement.LerpingMovementComponent.DidUpdate` | Shared/Components/Movement/LerpingMovementComponent.swift:49-72 | it changes nothing in the component; with no transform or no target it changes nothing at all; otherwise it leaves `currentPosition` alone and sets `proposedPosition` to the unrounded `Proposal` for `t = seconds * speed`; its loop invariants and decreases clause bound the retry loop to 11 iterations |

## Left out

- The engine framework is left out: the `GKComponent`/`GlideComponent` base classes, `init?(coder:)` with its `fatalError`, and the `componentPriority = 860` used by the host scheduler. None of them affects the update.
- The transform lookup is left out. The component's `transform` is a plain nullable field; `null` stands for "not attached yet".
- `glideRound` is not modelled: it is defined outside this file. It becomes the `round` parameter, and no property depends on its granularity.
- Floating point is not modelled: `CGFloat` and `TimeInterval` are exact `real`s, and the `CGFloat(seconds)` conversion is the identity. Overflow, NaN and IEEE rounding of the lerp itself are not modelled.
- The `lerp(destination:time:)` extension on points is defined outside this file. It is modelled as the standard unclamped component-wise `start + (destination - start) * time`, and the definition of `Geometry.Lerp` is the assumed contract; its ensures and `Geometry.LerpFixedPoints` state its consequences.
- The engine stage that commits `proposedPosition` into `currentPosition` is outside the component and not modelled.
