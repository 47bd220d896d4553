/** The collision pass of the physics system on one moving entity, as values:
    the entity's Position, Physics and Collider components, the collider list
    as the scan reads it, and what each private step of the pass makes of them. */
module PhysicsRules {
  import opened Geometry
  import opened Ecs
  import ExtensionMethods

  /** The first Position, Physics and Collider component of a moving entity. */
  datatype Body = Body(position: Position, physics: Physics, collider: Collider)

  /** What the collision scan reads of one entry of the collider list: the
      entity, its collider's layer and its rectangle. */
  datatype Obstacle = Obstacle(entity: Entity, layer: int, rect: Box)

  /** The coordinate of `v` on the X axis (`isX`) or on the Y axis. */
  function Axis(v: Vec, isX: bool): real {
    if isX then v.x else v.y
  }

  /** `v` with its coordinate on one axis replaced by `a`. */
  function WithAxis(v: Vec, isX: bool, a: real): (r: Vec)
    ensures Axis(r, isX) == a && Axis(r, !isX) == Axis(v, !isX)
  {
    if isX then Vec(a, v.y) else Vec(v.x, a)
  }

  /** The collider rectangle `MoveCollider` computes: its corner is the position
      plus the offset, rounded to the nearest integers; its size is kept. No
      other collider field changes. */
  function Refreshed(c: Collider, p: Position): (r: Collider)
    ensures r == c.(collider := r.collider)
    ensures r.collider.width == c.collider.width && r.collider.height == c.collider.height
    ensures -0.5 <= r.collider.x as real - (p.position.x + c.offset.x) <= 0.5
    ensures -0.5 <= r.collider.y as real - (p.position.y + c.offset.y) <= 0.5
    ensures r.collider.x == Round(p.position.x + c.offset.x) && r.collider.y == Round(p.position.y + c.offset.y)
  {
    var corner := ExtensionMethods.FromVector(Point(0, 0), Add(p.position, c.offset));
    c.(collider := Box(corner.x, corner.y, c.collider.width, c.collider.height))
  }

  /** Refreshing twice from the same position is refreshing once. */
  lemma RefreshedIdempotent(c: Collider, p: Position)
    ensures Refreshed(Refreshed(c, p), p) == Refreshed(c, p)
  {
  }

  /** The rectangle follows the position and the offset only: two colliders
      that differ in nothing else but their old rectangle's corner refresh alike. */
  lemma RefreshedForgetsCorner(c: Collider, p: Position, x: int, y: int)
    ensures Refreshed(c.(collider := c.collider.(x := x, y := y)), p) == Refreshed(c, p)
  {
  }

  /** `MoveCollider` on the body. */
  function Refresh(b: Body): Body {
    b.(collider := Refreshed(b.collider, b.position))
  }

  /** The body's position moved by `d`. */
  function Shift(b: Body, d: Vec): Body {
    b.(position := Position(Add(b.position.position, d)))
  }

  /** The scan of `CollisionAxis` stops at `o`: it is not the mover itself, it
      is on the mover's layer, and the rectangles overlap. */
  predicate Blocks(self: Entity, layer: int, rect: Box, o: Obstacle) {
    o.entity != self && o.layer == layer && Intersects(rect, o.rect)
  }

  /** The index where the scan stops: the first entry that blocks, or the
      length of the list when none does. */
  function FirstBlocker(self: Entity, layer: int, rect: Box, obs: seq<Obstacle>): (i: nat)
    ensures i <= |obs|
    ensures i < |obs| ==> Blocks(self, layer, rect, obs[i])
    ensures forall j :: 0 <= j < i ==> !Blocks(self, layer, rect, obs[j])
  {
    if obs == [] then 0
    else if Blocks(self, layer, rect, obs[0]) then 0
    else 1 + FirstBlocker(self, layer, rect, obs[1..])
  }

  /** Two lists the scan cannot tell apart: the same entities in the same
      order, and the same layer and rectangle for every entity but the mover. */
  predicate SameForScan(self: Entity, obs: seq<Obstacle>, obs': seq<Obstacle>) {
    && |obs| == |obs'|
    && forall i :: 0 <= i < |obs| ==>
         obs[i].entity == obs'[i].entity && (obs[i].entity != self ==> obs[i] == obs'[i])
  }

  /** The mover's own entry never matters to the scan, so the mover moving
      its own rectangle does not change where the scan stops. */
  lemma FirstBlockerIgnoresSelf(self: Entity, layer: int, rect: Box, obs: seq<Obstacle>, obs': seq<Obstacle>)
    requires SameForScan(self, obs, obs')
    ensures FirstBlocker(self, layer, rect, obs) == FirstBlocker(self, layer, rect, obs')
  {
  }

  /** `HandleCollisionResponse`: the moving-axis coordinate snaps to the floor
      of the last valid position when moving forward and to its ceiling
      otherwise, so it lands within one unit of it and not beyond it in the
      direction of motion; that axis's velocity becomes zero; the collider
      records the obstacle and the collision. Nothing else changes. */
  function Collide(b: Body, other: Entity, axisVelocity: real, isX: bool): (r: Body)
    ensures var last := Axis(b.collider.lastValidPos, isX);
            var now := Axis(r.position.position, isX);
            && (Sign(axisVelocity) > 0 ==> last - 1.0 < now <= last)
            && (Sign(axisVelocity) <= 0 ==> last <= now < last + 1.0)
    ensures Sign(axisVelocity) > 0 ==> Axis(r.position.position, isX) == Floor(Axis(b.collider.lastValidPos, isX)) as real
    ensures Sign(axisVelocity) <= 0 ==> Axis(r.position.position, isX) == Ceiling(Axis(b.collider.lastValidPos, isX)) as real
    ensures Axis(r.position.position, !isX) == Axis(b.position.position, !isX)
    ensures Axis(r.physics.velocity, isX) == 0.0
    ensures Axis(r.physics.velocity, !isX) == Axis(b.physics.velocity, !isX)
    ensures r.physics == b.physics.(velocity := r.physics.velocity)
    ensures r.collider == b.collider.(collidingWith := other, colliding := true)
  {
    var last := Axis(b.collider.lastValidPos, isX);
    var snapped := if Sign(axisVelocity) > 0 then Floor(last) else Ceiling(last);
    Body(Position(WithAxis(b.position.position, isX, snapped as real)),
         b.physics.(velocity := WithAxis(b.physics.velocity, isX, 0.0)),
         b.collider.(collidingWith := other, colliding := true))
  }

  /** `CollisionAxis`: scans the list; at the first blocking entry, responds to
      the collision and reports it. Without one, the last valid position takes
      the current, unrounded coordinate on this axis and keeps the other one. */
  function Check(self: Entity, b: Body, obs: seq<Obstacle>, axisVelocity: real, isX: bool): (r: (Body, bool))
    ensures var i := FirstBlocker(self, b.collider.collisionLayer, b.collider.collider, obs);
            && (r.1 <==> i < |obs|)
            && (r.1 ==> r.0 == Collide(b, obs[i].entity, axisVelocity, isX))
    ensures !r.1 ==> && r.0.position == b.position && r.0.physics == b.physics
                     && Axis(r.0.collider.lastValidPos, isX) == Axis(b.position.position, isX)
                     && Axis(r.0.collider.lastValidPos, !isX) == Axis(b.collider.lastValidPos, !isX)
                     && r.0.collider == b.collider.(lastValidPos := r.0.collider.lastValidPos)
  {
    var i := FirstBlocker(self, b.collider.collisionLayer, b.collider.collider, obs);
    if i < |obs| then
      (Collide(b, obs[i].entity, axisVelocity, isX), true)
    else
      var last := b.collider.lastValidPos;
      (b.(collider := b.collider.(lastValidPos := WithAxis(last, isX, Axis(b.position.position, isX)))), false)
  }

  /** The distance covered along an axis at speed `v` over `dt`. */
  function Travel(v: real, dt: real): real {
    v * dt
  }

  /** The number of rounds of the continuous loop: its integer counter runs
      from zero while it is below |v|. */
  function Rounds(v: real): (n: nat)
    ensures n as real - 1.0 < Abs(v) <= n as real
  {
    Ceiling(Abs(v))
  }

  /** The continuous loop of `MoveAxis` after `k` rounds: each round moves one
      `sign(v) * dt` step on the axis, refreshes the rectangle and checks; the
      flag says a round collided, after which the loop has stopped. */
  function Walk(self: Entity, b: Body, obs: seq<Obstacle>, v: real, dt: real, isX: bool, k: nat): (r: (Body, bool))
    ensures !r.1 ==> r.0.physics == b.physics
    ensures r.1 ==> Axis(r.0.physics.velocity, isX) == 0.0 && r.0.collider.colliding
  {
    if k == 0 then (b, false)
    else
      var before := Walk(self, b, obs, v, dt, isX, k - 1);
      if before.1 then before
      else Check(self, Refresh(Shift(before.0, WithAxis(Zero, isX, Travel(Sign(v) as real, dt)))), obs, Sign(v) as real, isX)
  }

  /** `MoveAxis` along one axis with the velocity snapshot `velocity`: the
      continuous loop, or one move of `v * dt` and one check. The flag says the
      pass collided. */
  function Pass(self: Entity, b: Body, obs: seq<Obstacle>, velocity: Vec, dt: real, isX: bool): (r: (Body, bool))
    ensures !r.1 ==> r.0.physics == b.physics
    ensures r.1 ==> Axis(r.0.physics.velocity, isX) == 0.0 && r.0.collider.colliding
  {
    if b.collider.continuous then Walk(self, b, obs, Axis(velocity, isX), dt, isX, Rounds(Axis(velocity, isX)))
    else Check(self, Refresh(Shift(b, WithAxis(Zero, isX, Travel(Axis(velocity, isX), dt)))), obs, Axis(velocity, isX), isX)
  }

  /** `Pass` for a continuous collider, written out. */
  lemma PassContinuous(self: Entity, b: Body, obs: seq<Obstacle>, velocity: Vec, dt: real, isX: bool)
    requires b.collider.continuous
    ensures Pass(self, b, obs, velocity, dt, isX) == Walk(self, b, obs, Axis(velocity, isX), dt, isX, Rounds(Axis(velocity, isX)))
  {
  }

  /** `Pass` for any other collider, written out. */
  lemma PassSingle(self: Entity, b: Body, obs: seq<Obstacle>, velocity: Vec, dt: real, isX: bool)
    requires !b.collider.continuous
    ensures Pass(self, b, obs, velocity, dt, isX) ==
            Check(self, Refresh(Shift(b, WithAxis(Zero, isX, Travel(Axis(velocity, isX), dt)))), obs, Axis(velocity, isX), isX)
  {
  }

  /** `MoveEntity`: clears `colliding`, then passes along X and then along Y,
      both with the velocity read before either pass. */
  function Move(self: Entity, b: Body, obs: seq<Obstacle>, dt: real): Body {
    var velocity := b.physics.velocity;
    var cleared := b.(collider := b.collider.(colliding := false));
    var afterX := Pass(self, cleared, obs, velocity, dt, true).0;
    Pass(self, afterX, obs, velocity, dt, false).0
  }

  /** `ApplyAcceleration`: the velocity gains acceleration over mass, times dt. */
  function Accelerated(p: Physics, dt: real): Physics
    requires p.mass != 0.0
  {
    var a := Vec(p.acceleration.x / p.mass, p.acceleration.y / p.mass);
    p.(velocity := Add(p.velocity, Scale(a, dt)))
  }

  /** `ApplyDrag`: a force against the direction of motion (`normalize` stands
      for `Vector2.Normalize`), of size |v|² times the coefficient times a
      tenth of `dragScale`, halved, then scaled per axis, applied over dt. */
  function Dragged(p: Physics, dt: real, coefficient: real, normalize: Vec -> Vec): Physics {
    var direction := if p.velocity != Zero then normalize(p.velocity) else p.velocity;
    var force := Scale(direction, LengthSquared(p.velocity) * coefficient * (p.dragScale / 10.0) / 2.0);
    var scaled := Vec(force.x * p.xDragScale, force.y * p.yDragScale);
    p.(velocity := Sub(p.velocity, Scale(scaled, dt)))
  }

  /** `ShouldStopMoving`: the speed is below a tenth, stated on its square. */
  predicate ShouldStop(v: Vec) {
    LengthSquared(v) < 0.01
  }

  /** The comparison on the square agrees with the comparison of the length
      itself, whatever non-negative square root the length is. */
  lemma ShouldStopIsSpeedBelowTenth(v: Vec, length: real)
    requires length >= 0.0 && length * length == LengthSquared(v)
    ensures ShouldStop(v) <==> length < 0.1
  {
    if length >= 0.1 {
      assert length * length >= 0.1 * length >= 0.01;
    }
  }

  /** Acceleration, drag and the stop clamp of `UpdateEntityPhysics`; only the
      velocity changes. */
  function Integrated(p: Physics, dt: real, coefficient: real, normalize: Vec -> Vec): (r: Physics)
    requires p.mass != 0.0
    ensures r == p.(velocity := r.velocity)
    ensures ShouldStop(Dragged(Accelerated(p, dt), dt, coefficient, normalize).velocity) ==> r.velocity == Zero
  {
    var q := Dragged(Accelerated(p, dt), dt, coefficient, normalize);
    if ShouldStop(q.velocity) then q.(velocity := Zero) else q
  }

  /** With no acceleration, no drag and a speed of at least a tenth, the
      velocity is carried over unchanged. */
  lemma CoastingKeepsVelocity(p: Physics, dt: real, normalize: Vec -> Vec)
    requires p.mass != 0.0 && p.acceleration == Zero && !ShouldStop(p.velocity)
    ensures Integrated(p, dt, 0.0, normalize).velocity == p.velocity
  {
  }

  /** Without acceleration, integrating it leaves the velocity as it was. */
  lemma NoAccelerationKeepsVelocity(p: Physics, dt: real)
    requires p.mass != 0.0 && p.acceleration == Zero
    ensures Accelerated(p, dt).velocity == p.velocity
  {
    ZeroOver(p.mass);
    ZeroTimes(dt);
  }

  /** Drag on a body at rest is zero, whatever `normalize` returns. */
  lemma DragAtRest(p: Physics, dt: real, coefficient: real, normalize: Vec -> Vec)
    requires p.velocity == Zero
    ensures Dragged(p, dt, coefficient, normalize).velocity == Zero
  {
    ZeroTimes(LengthSquared(p.velocity) * coefficient * (p.dragScale / 10.0) / 2.0);
    ZeroTimes(p.xDragScale);
    ZeroTimes(p.yDragScale);
    ZeroTimes(dt);
  }

  /** A body at rest with no acceleration stays at rest, whatever the drag. */
  lemma RestStaysAtRest(p: Physics, dt: real, coefficient: real, normalize: Vec -> Vec)
    requires p.mass != 0.0 && p.acceleration == Zero && p.velocity == Zero
    ensures Integrated(p, dt, coefficient, normalize).velocity == Zero
  {
    NoAccelerationKeepsVelocity(p, dt);
    DragAtRest(Accelerated(p, dt), dt, coefficient, normalize);
  }

  lemma ZeroOver(m: real)
    requires m != 0.0
    ensures 0.0 / m == 0.0
  {
  }

  lemma ZeroTimes(a: real)
    ensures 0.0 * a == 0.0 && a * 0.0 == 0.0
  {
  }

  /** `UpdateEntityPhysics` on the body: integrates the velocity, moves, and
      clears the acceleration. Mass and drag scales never change. */
  function UpdateBody(self: Entity, b: Body, obs: seq<Obstacle>, dt: real, coefficient: real,
                      normalize: Vec -> Vec): (r: Body)
    requires b.physics.mass != 0.0
    ensures r.physics.acceleration == Zero
    ensures r.physics == b.physics.(velocity := r.physics.velocity, acceleration := Zero)
  {
    var integrated := b.(physics := Integrated(b.physics, dt, coefficient, normalize));
    MoveKeeps(self, integrated, obs, dt);
    var moved := Move(self, integrated, obs, dt);
    moved.(physics := moved.physics.(acceleration := Zero))
  }

  /** What a pass along one axis leaves alone: the other axis of the
      position, of the velocity and of the last valid position, every other
      physics field, and every collider field but the rectangle's corner, the
      last valid position and the collision record. */
  predicate KeepsOther(b: Body, r: Body, isX: bool) {
    && Axis(r.position.position, !isX) == Axis(b.position.position, !isX)
    && Axis(r.physics.velocity, !isX) == Axis(b.physics.velocity, !isX)
    && Axis(r.collider.lastValidPos, !isX) == Axis(b.collider.lastValidPos, !isX)
    && r.physics == b.physics.(velocity := r.physics.velocity)
    && r.collider.continuous == b.collider.continuous
    && r.collider.offset == b.collider.offset
    && r.collider.collisionLayer == b.collider.collisionLayer
    && r.collider.collider.width == b.collider.collider.width
    && r.collider.collider.height == b.collider.collider.height
  }

  /** The continuous loop keeps the other axis, and reports a collision
      exactly when it leaves `colliding` set; without one, `collidingWith` is
      untouched. */
  lemma {:induction false} WalkKeeps(self: Entity, b: Body, obs: seq<Obstacle>, v: real, dt: real, isX: bool, k: nat)
    ensures var r := Walk(self, b, obs, v, dt, isX, k);
            && KeepsOther(b, r.0, isX)
            && (r.0.collider.colliding <==> b.collider.colliding || r.1)
            && (!r.1 ==> r.0.collider.collidingWith == b.collider.collidingWith)
  {
    if k > 0 {
      WalkKeeps(self, b, obs, v, dt, isX, k - 1);
    }
  }

  /** A pass along one axis keeps the other axis and reports a collision
      exactly when it leaves `colliding` set; a pass that collides stops that
      axis's velocity. */
  lemma PassKeeps(self: Entity, b: Body, obs: seq<Obstacle>, velocity: Vec, dt: real, isX: bool)
    ensures var r := Pass(self, b, obs, velocity, dt, isX);
            && KeepsOther(b, r.0, isX)
            && (r.0.collider.colliding <==> b.collider.colliding || r.1)
            && (!r.1 ==> r.0.collider.collidingWith == b.collider.collidingWith)
  {
    if b.collider.continuous {
      WalkKeeps(self, b, obs, Axis(velocity, isX), dt, isX, Rounds(Axis(velocity, isX)));
    }
  }

  /** Moving never changes the physics fields but the velocity, nor the
      collider's settings (continuity, offset, layer, size). */
  lemma MoveKeeps(self: Entity, b: Body, obs: seq<Obstacle>, dt: real)
    ensures var r := Move(self, b, obs, dt);
            && r.physics == b.physics.(velocity := r.physics.velocity)
            && r.collider.continuous == b.collider.continuous
            && r.collider.offset == b.collider.offset
            && r.collider.collisionLayer == b.collider.collisionLayer
            && r.collider.collider.width == b.collider.collider.width
            && r.collider.collider.height == b.collider.collider.height
  {
    var velocity := b.physics.velocity;
    var cleared := b.(collider := b.collider.(colliding := false));
    PassKeeps(self, cleared, obs, velocity, dt, true);
    PassKeeps(self, Pass(self, cleared, obs, velocity, dt, true).0, obs, velocity, dt, false);
  }

  /** After a move, `colliding` says whether either pass collided: it is
      cleared first and only a collision sets it. */
  lemma MoveReportsCollision(self: Entity, b: Body, obs: seq<Obstacle>, dt: real)
    ensures var velocity := b.physics.velocity;
            var cleared := b.(collider := b.collider.(colliding := false));
            var x := Pass(self, cleared, obs, velocity, dt, true);
            var y := Pass(self, x.0, obs, velocity, dt, false);
            && (Move(self, b, obs, dt).collider.colliding <==> x.1 || y.1)
            && (!x.1 && !y.1 ==> Move(self, b, obs, dt).collider.collidingWith == b.collider.collidingWith)
  {
    var velocity := b.physics.velocity;
    var cleared := b.(collider := b.collider.(colliding := false));
    PassKeeps(self, cleared, obs, velocity, dt, true);
    PassKeeps(self, Pass(self, cleared, obs, velocity, dt, true).0, obs, velocity, dt, false);
  }

  /** One more round of the continuous loop after `k` rounds that did not
      collide: a step, a refresh and a check from where they left the body. */
  lemma WalkStep(self: Entity, b: Body, obs: seq<Obstacle>, v: real, dt: real, isX: bool, k: nat,
                 last: Body, next: (Body, bool))
    requires Walk(self, b, obs, v, dt, isX, k) == (last, false)
    requires next == Check(self, Refresh(Shift(last, WithAxis(Zero, isX, Travel(Sign(v) as real, dt)))), obs, Sign(v) as real, isX)
    ensures Walk(self, b, obs, v, dt, isX, k + 1) == next
  {
  }

  /** Once a round of the continuous loop collides, no further round runs. */
  lemma {:induction false} WalkStops(self: Entity, b: Body, obs: seq<Obstacle>, v: real, dt: real, isX: bool, k: nat, k': nat)
    requires k <= k' && Walk(self, b, obs, v, dt, isX, k).1
    ensures Walk(self, b, obs, v, dt, isX, k') == Walk(self, b, obs, v, dt, isX, k)
    decreases k'
  {
    if k < k' {
      WalkStops(self, b, obs, v, dt, isX, k, k' - 1);
    }
  }

  /** Without a collision, `k` rounds of the continuous loop move the body
      `k` steps of `sign(v) * dt` along the axis, and the last valid position
      on that axis follows it. */
  lemma {:induction false} WalkDisplacement(self: Entity, b: Body, obs: seq<Obstacle>, v: real, dt: real, isX: bool, k: nat)
    ensures var r := Walk(self, b, obs, v, dt, isX, k);
            && (!r.1 ==> Axis(r.0.position.position, isX) == Axis(b.position.position, isX) + Steps(k, Travel(Sign(v) as real, dt)))
            && (!r.1 && k > 0 ==> Axis(r.0.collider.lastValidPos, isX) == Axis(r.0.position.position, isX))
    decreases k
  {
    if k > 0 {
      WalkDisplacement(self, b, obs, v, dt, isX, k - 1);
      var prev := Walk(self, b, obs, v, dt, isX, k - 1);
      if !prev.1 {
        var step := Travel(Sign(v) as real, dt);
        var next := Check(self, Refresh(Shift(prev.0, WithAxis(Zero, isX, step))), obs, Sign(v) as real, isX);
        StepAlongAxis(self, prev.0, obs, Sign(v) as real, step, isX);
      }
    }
  }

  /** A move of `step` along the axis followed by a check that finds no
      blocker leaves the body `step` further on, with its last valid position
      on that axis where it now is. */
  lemma StepAlongAxis(self: Entity, b: Body, obs: seq<Obstacle>, axisVelocity: real, step: real, isX: bool)
    ensures var next := Check(self, Refresh(Shift(b, WithAxis(Zero, isX, step))), obs, axisVelocity, isX);
            !next.1 ==> && Axis(next.0.position.position, isX) == Axis(b.position.position, isX) + step
                        && Axis(next.0.collider.lastValidPos, isX) == Axis(next.0.position.position, isX)
  {
  }

  /** The distance `k` steps of `step` cover, added up step by step. */
  function Steps(k: nat, step: real): real {
    if k == 0 then 0.0 else Steps(k - 1, step) + step
  }

  /** Adding up `k` steps is multiplying by `k`. */
  lemma {:induction false} StepsIsProduct(k: nat, step: real)
    ensures Steps(k, step) == k as real * step
  {
    if k > 0 {
      StepsIsProduct(k - 1, step);
      assert k as real * step == (k - 1) as real * step + step;
    }
  }

  /** Without a collision, a pass moves the body along the axis by `v * dt`
      in one jump, or, for a continuous collider, by `Rounds(v)` unit steps of
      `sign(v) * dt`: a whole number of steps, which overshoots `v * dt` when
      |v| is not a whole number. The pass collides exactly when the scan at
      the end of a jump finds a blocker. */
  lemma PassDisplacement(self: Entity, b: Body, obs: seq<Obstacle>, velocity: Vec, dt: real, isX: bool)
    ensures var r := Pass(self, b, obs, velocity, dt, isX);
            var v := Axis(velocity, isX);
            var moved := if b.collider.continuous then Steps(Rounds(v), Travel(Sign(v) as real, dt)) else Travel(v, dt);
            !r.1 ==> Axis(r.0.position.position, isX) == Axis(b.position.position, isX) + moved
    ensures var r := Pass(self, b, obs, velocity, dt, isX);
            var e := Refresh(Shift(b, WithAxis(Zero, isX, Travel(Axis(velocity, isX), dt))));
            !b.collider.continuous ==> (r.1 <==> FirstBlocker(self, e.collider.collisionLayer, e.collider.collider, obs) < |obs|)
  {
    if b.collider.continuous {
      WalkDisplacement(self, b, obs, Axis(velocity, isX), dt, isX, Rounds(Axis(velocity, isX)));
    }
  }

  /** The continuous loop's whole steps overshoot a fractional speed: at
      speed 2.5 it takes three steps, so with dt 1 it covers 3 units where a
      jump covers 2.5. */
  lemma ContinuousOvershoots()
    ensures Rounds(2.5) == 3 && Steps(Rounds(2.5), Travel(Sign(2.5) as real, 1.0)) == 3.0
    ensures Travel(2.5, 1.0) == 2.5
  {
    StepsIsProduct(3, 1.0);
  }

  /** A continuous collider with no velocity on the axis takes no step and
      makes no check: the pass changes nothing. */
  lemma ContinuousAtRest(self: Entity, b: Body, obs: seq<Obstacle>, velocity: Vec, dt: real, isX: bool)
    requires b.collider.continuous && Axis(velocity, isX) == 0.0
    ensures Pass(self, b, obs, velocity, dt, isX) == (b, false)
  {
    assert Rounds(0.0) == 0;
  }

  /** The scan ignores the mover's own entry: a list holding only the mover
      never blocks, whatever its rectangle. */
  lemma ScanSkipsSelf(self: Entity, b: Body, r: Box, velocity: Vec, dt: real, isX: bool)
    requires !b.collider.continuous
    ensures var obs := [Obstacle(self, b.collider.collisionLayer, r)];
            !Pass(self, b, obs, velocity, dt, isX).1
  {
    var obs := [Obstacle(self, b.collider.collisionLayer, r)];
    var c := Refresh(Shift(b, WithAxis(Zero, isX, Travel(Axis(velocity, isX), dt))));
    assert !Blocks(self, c.collider.collisionLayer, c.collider.collider, obs[0]);
  }

  /** A unit box at the origin moving right at speed 5, with dt 1. */
  function Runner(continuous: bool): Body {
    Body(Position(Zero),
         Physics(Vec(5.0, 0.0), Zero, 1.0, 1.0, 1.0, 1.0),
         Collider(Zero, continuous, Zero, Box(0, 0, 1, 1), null, false, 1))
  }

  /** The continuous runner's state at integer x = `n` on the X axis, with its
      last valid x there too. */
  predicate RunnerAt(c: Body, n: int) {
    && c.position.position == Vec(n as real, 0.0)
    && c.collider.lastValidPos.x == n as real
    && c.collider.continuous && c.collider.offset == Zero && c.collider.collisionLayer == 1
    && c.collider.collider.width == 1 && c.collider.collider.height == 1
    && c.physics.velocity == Vec(5.0, 0.0)
  }

  /** One round of the runner's continuous loop against a unit wall at x = 3:
      it collides exactly when it reaches x = 3 with the wall on its layer. */
  lemma RunnerRound(self: Entity, wall: Entity, layer: int, c: Body, n: int)
    requires self != wall && RunnerAt(c, n)
    ensures var r := Check(self, Refresh(Shift(c, WithAxis(Zero, true, Travel(Sign(5.0) as real, 1.0)))),
                           [Obstacle(wall, layer, Box(3, 0, 1, 1))], Sign(5.0) as real, true);
            && (r.1 <==> layer == 1 && n + 1 == 3)
            && (r.1 ==> && r.0.position.position == Vec(n as real, 0.0) && r.0.physics.velocity == Zero
                        && r.0.collider.colliding && r.0.collider.collidingWith == wall
                        && r.0.collider.continuous)
            && (!r.1 ==> RunnerAt(r.0, n + 1) && r.0.collider.colliding == c.collider.colliding)
  {
    RoundInteger(n + 1);
    RoundInteger(0);
    var moved := Shift(c, WithAxis(Zero, true, Travel(Sign(5.0) as real, 1.0)));
    assert moved.position.position == Vec((n + 1) as real, 0.0);
    assert Refresh(moved).collider.collider == Box(n + 1, 0, 1, 1);
  }

  /** The runner's first `k` rounds against the wall: clear of it while it
      stays below x = 3, or all the way when the wall is on another layer. */
  lemma {:induction false} RunnerWalk(self: Entity, wall: Entity, layer: int, c: Body, k: nat)
    requires self != wall && RunnerAt(c, 0) && (k <= 2 || layer != 1)
    ensures var w := Walk(self, c, [Obstacle(wall, layer, Box(3, 0, 1, 1))], 5.0, 1.0, true, k);
            !w.1 && RunnerAt(w.0, k) && w.0.collider.colliding == c.collider.colliding
  {
    if k > 0 {
      var obs := [Obstacle(wall, layer, Box(3, 0, 1, 1))];
      RunnerWalk(self, wall, layer, c, k - 1);
      var last := Walk(self, c, obs, 5.0, 1.0, true, k - 1).0;
      RunnerRound(self, wall, layer, last, k - 1);
      WalkStep(self, c, obs, 5.0, 1.0, true, k - 1, last,
               Check(self, Refresh(Shift(last, WithAxis(Zero, true, Travel(Sign(5.0) as real, 1.0)))), obs, Sign(5.0) as real, true));
    }
  }

  /** In continuous mode the runner steps to x = 1, 2, then 3, where it
      overlaps a unit wall at x = 3 on its layer; it snaps back to the last
      valid x = 2, stops, and records the wall. */
  lemma ContinuousStopsAtWall(self: Entity, wall: Entity)
    requires self != wall
    ensures var r := Move(self, Runner(true), [Obstacle(wall, 1, Box(3, 0, 1, 1))], 1.0);
            && r.position.position == Vec(2.0, 0.0)
            && r.physics.velocity == Zero
            && r.collider.colliding && r.collider.collidingWith == wall
  {
    var obs := [Obstacle(wall, 1, Box(3, 0, 1, 1))];
    var b := Runner(true);
    var cleared := b.(collider := b.collider.(colliding := false));
    assert Rounds(5.0) == 5;
    RunnerWalk(self, wall, 1, cleared, 2);
    RunnerRound(self, wall, 1, Walk(self, cleared, obs, 5.0, 1.0, true, 2).0, 2);
    WalkStops(self, cleared, obs, 5.0, 1.0, true, 3, 5);
    var x := Pass(self, cleared, obs, b.physics.velocity, 1.0, true);
    assert x == Walk(self, cleared, obs, 5.0, 1.0, true, 3);
    ContinuousAtRest(self, x.0, obs, b.physics.velocity, 1.0, false);
  }

  /** The same wall on another layer does not block: the runner goes the
      whole way to x = 5 and reports no collision. */
  lemma OtherLayerDoesNotBlock(self: Entity, wall: Entity)
    requires self != wall
    ensures var r := Move(self, Runner(true), [Obstacle(wall, 2, Box(3, 0, 1, 1))], 1.0);
            r.position.position == Vec(5.0, 0.0) && !r.collider.colliding
  {
    var obs := [Obstacle(wall, 2, Box(3, 0, 1, 1))];
    var b := Runner(true);
    var cleared := b.(collider := b.collider.(colliding := false));
    assert Rounds(5.0) == 5;
    RunnerWalk(self, wall, 2, cleared, 5);
    var x := Pass(self, cleared, obs, b.physics.velocity, 1.0, true);
    ContinuousAtRest(self, x.0, obs, b.physics.velocity, 1.0, false);
  }

  /** A non-continuous unit box at (5, 0) on layer 1, not colliding. */
  predicate JumpedTo5(c: Body) {
    && c.position.position == Vec(5.0, 0.0)
    && !c.collider.continuous && c.collider.offset == Zero && c.collider.collisionLayer == 1
    && c.collider.collider.width == 1 && c.collider.collider.height == 1
    && !c.collider.colliding
  }

  /** The X pass of the non-continuous runner: one jump to x = 5, clear of
      the wall at x = 3. */
  lemma RunnerJumpX(self: Entity, wall: Entity, c: Body)
    requires self != wall && c == Runner(false).(collider := Runner(false).collider.(colliding := false))
    ensures var x := Pass(self, c, [Obstacle(wall, 1, Box(3, 0, 1, 1))], Vec(5.0, 0.0), 1.0, true);
            !x.1 && JumpedTo5(x.0)
  {
    var obs := [Obstacle(wall, 1, Box(3, 0, 1, 1))];
    var ex := Refresh(Shift(c, WithAxis(Zero, true, Travel(5.0, 1.0))));
    assert ex.position.position == Vec(5.0, 0.0) by {
      assert Travel(5.0, 1.0) == 5.0;
    }
    assert ex.collider.collider == Box(5, 0, 1, 1) by {
      RoundInteger(5);
      RoundInteger(0);
    }
    assert FirstBlocker(self, ex.collider.collisionLayer, ex.collider.collider, obs) == 1 by {
      assert !Intersects(Box(5, 0, 1, 1), Box(3, 0, 1, 1));
    }
    PassDisplacement(self, c, obs, Vec(5.0, 0.0), 1.0, true);
    PassKeeps(self, c, obs, Vec(5.0, 0.0), 1.0, true);
  }

  /** The Y pass of the runner at x = 5 with no Y velocity: it stays there. */
  lemma RunnerStaysY(self: Entity, wall: Entity, x: Body)
    requires self != wall && JumpedTo5(x)
    ensures var y := Pass(self, x, [Obstacle(wall, 1, Box(3, 0, 1, 1))], Vec(5.0, 0.0), 1.0, false);
            !y.1 && y.0.position.position == Vec(5.0, 0.0) && !y.0.collider.colliding
  {
    var obs := [Obstacle(wall, 1, Box(3, 0, 1, 1))];
    var ey := Refresh(Shift(x, WithAxis(Zero, false, Travel(0.0, 1.0))));
    assert ey.position.position == Vec(5.0, 0.0) by {
      assert Travel(0.0, 1.0) == 0.0;
    }
    assert ey.collider.collider == Box(5, 0, 1, 1) by {
      RoundInteger(5);
      RoundInteger(0);
    }
    assert FirstBlocker(self, ey.collider.collisionLayer, ey.collider.collider, obs) == 1 by {
      assert !Intersects(Box(5, 0, 1, 1), Box(3, 0, 1, 1));
    }
    PassDisplacement(self, x, obs, Vec(5.0, 0.0), 1.0, false);
    PassKeeps(self, x, obs, Vec(5.0, 0.0), 1.0, false);
  }

  /** Without continuous mode the runner jumps straight to x = 5 and checks
      only there, passing through the wall at x = 3. */
  lemma SingleStepPassesThrough(self: Entity, wall: Entity)
    requires self != wall
    ensures var r := Move(self, Runner(false), [Obstacle(wall, 1, Box(3, 0, 1, 1))], 1.0);
            r.position.position == Vec(5.0, 0.0) && !r.collider.colliding
  {
    var obs := [Obstacle(wall, 1, Box(3, 0, 1, 1))];
    var b := Runner(false);
    var cleared := b.(collider := b.collider.(colliding := false));
    RunnerJumpX(self, wall, cleared);
    var x := Pass(self, cleared, obs, b.physics.velocity, 1.0, true);
    RunnerStaysY(self, wall, x.0);
  }
}
