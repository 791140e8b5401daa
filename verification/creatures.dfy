/** The steering step of a path-following creature (`creature.go`).

    A creature has a position, a velocity, the waypoints of its path and the index
    `currentNode` of the waypoint it is heading for. One call of `Move` steers
    towards that waypoint with a bounded acceleration, caps the speed and moves
    the creature by its new velocity. */
module Creatures {
  import opened Vectors

  datatype Creature = Creature(pos: Vec, v: Vec, path: seq<Vec>, currentNode: int)

  /** `maxSpeed`: the longest velocity a creature keeps after a step. */
  const MaxSpeed: real := 2.0

  /** `maxAcceleration`: the longest steering force added to the velocity. */
  const MaxAcceleration: real := 0.5

  /** A waypoint counts as reached once the creature is closer to it than this. */
  const ArrivalRadius: real := 20.0

  /** `currentNode` indexes a waypoint of the path. The source reads
      `path[currentNode]` without a check, so every step needs this. */
  predicate HasTarget(c: Creature) {
    0 <= c.currentNode < |c.path|
  }

  /** The outcome of `followPath`: the creature with its index possibly advanced,
      and the steering vector the call returns. */
  datatype Followed = Followed(creature: Creature, steering: Vec)

  /** `followPath`: the steering vector runs from the position to the current
      waypoint, read before the index moves on, and the index moves on by one
      exactly when that waypoint is closer than `ArrivalRadius`. Nothing else
      about the creature changes. */
  function FollowPath(c: Creature, root: real -> real): (r: Followed)
    requires IsSqrt(root)
    requires HasTarget(c)
    ensures Add(c.pos, r.steering) == c.path[c.currentNode]
    ensures r.creature == c.(currentNode := r.creature.currentNode)
    ensures r.creature.currentNode == c.currentNode + 1
            <==> LenSq(Sub(c.path[c.currentNode], c.pos)) < ArrivalRadius * ArrivalRadius
    ensures r.creature.currentNode == c.currentNode || r.creature.currentNode == c.currentNode + 1
  {
    var target := c.path[c.currentNode];
    var distance := Len(Sub(target, c.pos), root);
    LenCompare(Sub(target, c.pos), ArrivalRadius, root);
    var next := if distance < ArrivalRadius then c.(currentNode := c.currentNode + 1) else c;
    Followed(next, To(c.pos, target))
  }

  /** Caps the length of `v` at `k`, as the two `if x.Len() > k { x = x.Unit().Scaled(k) }`
      blocks of `move` do. The result is never longer than `k`; a vector within
      the cap is returned unchanged, so nothing is ever scaled up; a longer vector
      is shortened to length exactly `k` without turning. The zero vector never
      reaches `Unit`, because its length does not exceed the positive cap. */
  function Limit(v: Vec, k: real, root: real -> real): (r: Vec)
    requires IsSqrt(root)
    requires 0.0 < k
    ensures LenSq(r) <= k * k
    ensures LenSq(v) <= k * k ==> r == v
    ensures k * k < LenSq(v) ==> LenSq(r) == k * k && SameDirection(r, v)
  {
    LenCompare(v, k, root);
    SquarePositive(k, k * k);
    LenSqPositive(v);
    if Len(v, root) > k then
      ScaledUnit(v, k, root);
      Scaled(Unit(v, root), k)
    else
      v
  }

  /** The steering force `move` adds to the velocity: the vector towards the current
      waypoint, capped at `MaxAcceleration`. */
  function Force(c: Creature, root: real -> real): (f: Vec)
    requires IsSqrt(root)
    requires HasTarget(c)
    ensures LenSq(f) <= MaxAcceleration * MaxAcceleration
    ensures var d := Sub(c.path[c.currentNode], c.pos);
            (LenSq(d) <= MaxAcceleration * MaxAcceleration ==> f == d) &&
            (MaxAcceleration * MaxAcceleration < LenSq(d) ==>
              LenSq(f) == MaxAcceleration * MaxAcceleration && SameDirection(f, d))
  {
    Limit(FollowPath(c, root).steering, MaxAcceleration, root)
  }

  /** `move`: one steering step. The new velocity is the old one plus the capped
      force, itself capped at `MaxSpeed` (and left alone when already within it);
      the position moves by the new velocity; the index moves on by at most one,
      exactly when the waypoint was within `ArrivalRadius`; the path is untouched. */
  function Move(c: Creature, root: real -> real): (r: Creature)
    requires IsSqrt(root)
    requires HasTarget(c)
    ensures LenSq(r.v) <= MaxSpeed * MaxSpeed
    ensures var w := Add(c.v, Force(c, root));
            (LenSq(w) <= MaxSpeed * MaxSpeed ==> r.v == w) &&
            (MaxSpeed * MaxSpeed < LenSq(w) ==> LenSq(r.v) == MaxSpeed * MaxSpeed && SameDirection(r.v, w))
    ensures r.pos == Add(c.pos, r.v)
    ensures r.path == c.path
    ensures r.currentNode == c.currentNode || r.currentNode == c.currentNode + 1
    ensures r.currentNode == c.currentNode + 1
            <==> LenSq(Sub(c.path[c.currentNode], c.pos)) < ArrivalRadius * ArrivalRadius
    ensures 0 <= r.currentNode <= |r.path|
  {
    var next := FollowPath(c, root).creature;
    var v := Limit(Add(c.v, Force(c, root)), MaxSpeed, root);
    next.(v := v, pos := Add(next.pos, v))
  }

  /** `n` consecutive steps. Each step needs a waypoint to head for and moves the
      index on by at most one, so `n` steps are safe whenever the path has `n`
      waypoints left from the current one. The path stays as it was, the index
      never goes back and advances by at most `n`, and after at least one step the
      speed is within `MaxSpeed`. */
  function Run(c: Creature, n: nat, root: real -> real): (r: Creature)
    requires IsSqrt(root)
    requires 0 <= c.currentNode && c.currentNode + n <= |c.path|
    ensures r.path == c.path
    ensures c.currentNode <= r.currentNode <= c.currentNode + n
    ensures 0 < n ==> LenSq(r.v) <= MaxSpeed * MaxSpeed
    decreases n
  {
    if n == 0 then c else Run(Move(c, root), n - 1, root)
  }

  /** Running `n + 1` steps is running `n` steps and then one more. */
  lemma {:induction false} RunLast(c: Creature, n: nat, root: real -> real)
    requires IsSqrt(root)
    requires 0 <= c.currentNode && c.currentNode + n + 1 <= |c.path|
    ensures HasTarget(Run(c, n, root))
    ensures Run(c, n + 1, root) == Move(Run(c, n, root), root)
    decreases n
  {
    if n > 0 {
      RunLast(Move(c, root), n - 1, root);
    }
  }

  /** The index of the waypoint being followed never goes back over a run. */
  lemma {:induction false} RunMonotone(c: Creature, m: nat, n: nat, root: real -> real)
    requires IsSqrt(root)
    requires 0 <= c.currentNode && c.currentNode + n <= |c.path|
    requires m <= n
    ensures Run(c, m, root).currentNode <= Run(c, n, root).currentNode
    decreases n - m
  {
    if m < n {
      RunMonotone(c, m, n - 1, root);
      RunLast(c, n - 1, root);
    }
  }
}
