/** The lerping movement component: each tick it moves its entity's
    proposed position toward a target point by a lerp whose fraction is the
    elapsed time times the speed, retrying the lerp a bounded number of times
    when the engine's rounding would leave the entity where it is.

    The engine's rounding of a coordinate (`glideRound`) is passed in as a
    total function `round`; nothing is assumed about it. */
module LerpingMovement {
  import opened Geometry

  datatype Option<T> = None | Some(value: T)

  /** The retry counter's starting value. */
  const RetryBudget: int := 10

  /** The most lerps one update can evaluate: the first one, then one per
      retry while the counter runs from `RetryBudget` down to 0. */
  const MaxLerps: nat := RetryBudget + 2

  /** A point with each coordinate rounded by the engine's rounding.  Its
      contract: rounding leaves a point where it is exactly when both of its
      coordinates are unchanged by the rounding. */
  function RoundPoint(p: Point, round: real -> real): (r: Point)
    ensures r == p <==> round(p.x) == p.x && round(p.y) == p.y
  {
    Point(round(p.x), round(p.y))
  }

  /** The number of lerps an update evaluates, searched from `n` on: the
      first count from `n` whose rounded result differs from `current`, or
      `MaxLerps` when none up to it does. */
  function FirstMove(current: Point, target: Point, time: real, round: real -> real, n: nat): (m: nat)
    requires 1 <= n <= MaxLerps
    ensures n <= m <= MaxLerps
    ensures m == MaxLerps || RoundPoint(Compounded(current, target, time, m), round) != current
    ensures forall j :: n <= j < m ==> RoundPoint(Compounded(current, target, time, j), round) == current
    decreases MaxLerps - n
  {
    if n == MaxLerps || RoundPoint(Compounded(current, target, time, n), round) != current then n
    else FirstMove(current, target, time, round, n + 1)
  }

  /** The number of lerps one update evaluates: at least one and at most
      `MaxLerps`; every earlier count rounds back onto `current`, and the
      update stops at the first that does not, or when the budget is spent. */
  function Attempts(current: Point, target: Point, time: real, round: real -> real): (n: nat)
    ensures 1 <= n <= MaxLerps
    ensures n == MaxLerps || RoundPoint(Compounded(current, target, time, n), round) != current
    ensures forall j :: 1 <= j < n ==> RoundPoint(Compounded(current, target, time, j), round) == current
  {
    FirstMove(current, target, time, round, 1)
  }

  /** The position one update proposes: the last UNROUNDED lerp result.
      Its contract is the loop's exit condition: the rounded proposal has
      moved off `current`, or the retry budget is exhausted. */
  function Proposal(current: Point, target: Point, time: real, round: real -> real): (r: Point)
    ensures RoundPoint(r, round) != current || Attempts(current, target, time, round) == MaxLerps
  {
    Compounded(current, target, time, Attempts(current, target, time, round))
  }

  /** When the first lerp already moves the rounded position, no retry
      happens and the proposal is that first lerp. */
  lemma ProposalWithoutStall(current: Point, target: Point, time: real, round: real -> real)
    requires RoundPoint(Lerp(current, target, time), round) != current
    ensures Attempts(current, target, time, round) == 1
    ensures Proposal(current, target, time, round) == Lerp(current, target, time)
  {
    assert Compounded(current, target, time, 1) == Lerp(current, target, time);
  }

  /** Progress when possible: if some count of lerps within the budget rounds
      off `current`, the update stops no later than that count and its
      proposal rounds off `current` too. */
  lemma ProgressIfPossible(current: Point, target: Point, time: real, round: real -> real, j: nat)
    requires 1 <= j <= MaxLerps
    requires RoundPoint(Compounded(current, target, time, j), round) != current
    ensures Attempts(current, target, time, round) <= j
    ensures RoundPoint(Proposal(current, target, time, round), round) != current
  {
  }

  /** Closed form of the proposal: per coordinate,
      `target + (current - target) * (1 - time)^k` where `k` is the number of
      lerps evaluated (the loop ran `k - 1` times). */
  lemma ProposalClosedForm(current: Point, target: Point, time: real, round: real -> real)
    ensures Proposal(current, target, time, round).x
            == target.x + (current.x - target.x) * Pow(1.0 - time, Attempts(current, target, time, round))
    ensures Proposal(current, target, time, round).y
            == target.y + (current.y - target.y) * Pow(1.0 - time, Attempts(current, target, time, round))
  {
    CompoundedClosedForm(current, target, time, Attempts(current, target, time, round));
  }

  /** Standing on the target, the update proposes the target itself, however
      the rounding behaves and whatever the fraction. */
  lemma ProposalAtTarget(target: Point, time: real, round: real -> real)
    ensures Proposal(target, target, time, round) == target
  {
    CompoundedAtTarget(target, time, Attempts(target, target, time, round));
  }

  /** With a zero fraction (zero speed or zero elapsed time) the update
      proposes the current position unchanged. */
  lemma ProposalZeroRate(current: Point, target: Point, round: real -> real)
    ensures Proposal(current, target, 0.0, round) == current
  {
    CompoundedZeroRate(current, target, Attempts(current, target, 0.0, round));
  }

  /** With a fraction in [0, 2] the proposal is no farther from the target
      than the current position, coordinate by coordinate. */
  lemma ProposalNonDivergent(current: Point, target: Point, time: real, round: real -> real)
    requires 0.0 <= time <= 2.0
    ensures Abs(Proposal(current, target, time, round).x - target.x) <= Abs(current.x - target.x)
    ensures Abs(Proposal(current, target, time, round).y - target.y) <= Abs(current.y - target.y)
  {
    CompoundedNonDivergent(current, target, time, Attempts(current, target, time, round));
  }

  /** With a fraction strictly between 0 and 2 the proposal is strictly closer
      to the target in every coordinate where the current position is off it. */
  lemma ProposalConverges(current: Point, target: Point, time: real, round: real -> real)
    requires 0.0 < time < 2.0
    ensures current.x != target.x ==>
              Abs(Proposal(current, target, time, round).x - target.x) < Abs(current.x - target.x)
    ensures current.y != target.y ==>
              Abs(Proposal(current, target, time, round).y - target.y) < Abs(current.y - target.y)
  {
    CompoundedConverges(current, target, time, Attempts(current, target, time, round));
  }

  /** The entity's transform: the committed position the component reads and
      the proposed position it writes.  Committing the proposal is done
      elsewhere in the engine. */
  class Transform {
    var currentPosition: Point
    var proposedPosition: Point

    constructor (current: Point, proposed: Point)
      ensures currentPosition == current && proposedPosition == proposed
    {
      currentPosition := current;
      proposedPosition := proposed;
    }
  }

  class LerpingMovementComponent {
    /** Speed of the movement; fixed at construction. */
    const speed: real
    /** Target point to reach; `None` means idle.  Any caller may set or
        clear it between ticks. */
    var targetPoint: Option<Point>
    /** The entity's transform, `null` while the component is not attached. */
    var transform: Transform?

    constructor (speed: real)
      ensures this.speed == speed
      ensures targetPoint == None && transform == null
    {
      this.speed := speed;
      targetPoint := None;
      transform := null;
    }

    /** One tick of `seconds` elapsed time.  Without a transform or without
        a target it does nothing.  Otherwise it proposes the last unrounded
        lerp of the retry loop, and writes nothing else. */
    method DidUpdate(seconds: real, round: real -> real)
      modifies transform
      ensures unchanged(this)
      ensures transform != null ==> transform.currentPosition == old(transform.currentPosition)
      ensures transform != null && targetPoint == None ==>
                transform.proposedPosition == old(transform.proposedPosition)
      ensures transform != null && targetPoint.Some? ==>
                transform.proposedPosition
                == Proposal(transform.currentPosition, targetPoint.value, seconds * speed, round)
    {
      if transform == null || targetPoint == None {
        return;
      }
      var tr, target := transform, targetPoint.value;
      var lerpingTime := seconds * speed;

      var numberOfTries := RetryBudget;
      var newLerped := Lerp(tr.currentPosition, target, lerpingTime);
      var lerped := RoundPoint(newLerped, round);
      ghost var lerps: nat := 1;
      while lerped == tr.currentPosition && numberOfTries >= 0
        invariant -1 <= numberOfTries <= RetryBudget
        invariant lerps == RetryBudget + 1 - numberOfTries
        invariant newLerped == Compounded(tr.currentPosition, target, lerpingTime, lerps)
        invariant lerped == RoundPoint(newLerped, round)
        invariant Attempts(tr.currentPosition, target, lerpingTime, round)
                  == FirstMove(tr.currentPosition, target, lerpingTime, round, lerps)
        decreases numberOfTries + 1
      {
        newLerped := Lerp(newLerped, target, lerpingTime);
        lerped := RoundPoint(newLerped, round);
        numberOfTries := numberOfTries - 1;
        lerps := lerps + 1;
      }
      tr.proposedPosition := newLerped;
    }
  }
}
