/** The physics system as the object the game updates: it refreshes every
    collider's rectangle, then integrates, moves and collides every non-Static
    entity with a Position and a Physics, changing the entities' components in
    place. Each method is proved against the value-level pass of `PhysicsWorld`
    and `PhysicsRules`. */
module PhysicsSystems {
  import opened Geometry
  import opened Wrappers
  import opened Lists
  import opened Ecs
  import opened EntityMaps
  import opened PhysicsRules
  import opened PhysicsWorld

  /** The components of every entity of `dom`: the world the pass sees. */
  function View(dom: set<Entity>): (w: World)
    reads dom
    ensures w.Keys == dom
  {
    map x | x in dom :: x.components
  }

  /** The entities of a list, as a set. */
  function Elements(es: seq<Entity>): set<Entity> {
    set x | x in es
  }

  /** Every entity `Update` reads or writes: the colliders and the movers. */
  function Domain(colliders: seq<Entity>, movers: seq<Entity>): set<Entity> {
    Elements(colliders) + Elements(movers)
  }

  /** When no entity of `dom` but `e` holds other components than it did in
      `before`, the world is `before` with `e`'s entry replaced. */
  lemma ViewReplace(dom: set<Entity>, e: Entity, before: World)
    requires e in dom && before.Keys == dom
    requires forall x :: x in dom && x != e ==> x.components == before[x]
    ensures View(dom) == before[e := e.components]
  {
  }

  /** `PhysicsSystem`. */
  class PhysicsSystem {
    /** `DragCoefficient`. */
    var dragCoefficient: real

    constructor()
      ensures dragCoefficient == 0.1
    {
      dragCoefficient := 0.1;
    }

    /** `MoveCollider(entity)`: the first Collider's rectangle moves to the
        rounded position plus offset and keeps its size. Without a Position
        or a Collider the access throws and nothing changes. */
    method MoveCollider(e: Entity) returns (outcome: Outcome)
      modifies e
      ensures outcome == Done <==> old(Carries(e.components, PositionKind) && Carries(e.components, ColliderKind))
      ensures outcome == Done ==> e.components == RefreshedComponents(old(e.components))
      ensures outcome != Done ==> outcome == Faulted(NullReference) && e.components == old(e.components)
    {
      var position := e.GetComponent(PositionKind);
      var collider := e.GetComponent(ColliderKind);
      if position.None? || collider.None? {
        return Faulted(NullReference);
      }
      var p := position.value.pos;
      var c := collider.value.col;
      var corner := ExtensionMethods.FromVector(Point(0, 0), Add(p.position, c.offset));
      var i := IndexOfKind(e.components, ColliderKind);
      e.components := e.components[i := Col(c.(collider := Box(corner.x, corner.y, c.collider.width, c.collider.height)))];
      outcome := Done;
    }

    /** `MoveColliders(colliders)`: refreshes each collider in list order and
        stops at the first exception. */
    method MoveColliders(colliders: seq<Entity>, ghost dom: set<Entity>) returns (outcome: Outcome)
      requires forall i :: 0 <= i < |colliders| ==> colliders[i] in dom
      modifies colliders
      ensures (View(dom), outcome) == RefreshAll(old(View(dom)), colliders)
    {
      ghost var w := View(dom);
      outcome := Done;
      for i := 0 to |colliders|
        invariant outcome == Done && (View(dom), Done) == RefreshAll(w, colliders[..i])
      {
        var e := colliders[i];
        ghost var before := View(dom);
        RefreshAllNext(w, colliders, i);
        outcome := MoveCollider(e);
        ViewReplace(dom, e, before);
        if outcome != Done {
          assert before[e := before[e]] == before;
          RefreshAllFaultSticks(w, colliders, i + 1);
          return;
        }
      }
      assert colliders[..|colliders|] == colliders;
    }

    /** `CollisionAxis`: scans the collider list in order, skipping the mover
        itself and other layers; at the first rectangle that intersects the
        mover's, responds and reports a collision. Without one, this axis of
        the last valid position takes the current position. */
    method CollisionAxis(self: Entity, b: Body, colliders: seq<Entity>, axisVelocity: real, isX: bool,
                         ghost dom: set<Entity>, ghost obs: seq<Obstacle>)
      returns (r: Body, collided: bool)
      requires CollidersReady(View(dom), colliders) && obs == ObstaclesIn(View(dom), colliders)
      ensures (r, collided) == Check(self, b, obs, axisVelocity, isX)
    {
      for j := 0 to |colliders|
        invariant forall m :: 0 <= m < j ==> !Blocks(self, b.collider.collisionLayer, b.collider.collider, obs[m])
      {
        var other := colliders[j];
        if other == self {
          continue;
        }
        var otherCollider := other.GetComponent(ColliderKind).value.col;
        if otherCollider.collisionLayer != b.collider.collisionLayer {
          continue;
        }
        if Intersects(b.collider.collider, otherCollider.collider) {
          r := Collide(b, other, axisVelocity, isX);
          collided := true;
          return;
        }
      }
      var last := b.collider.lastValidPos;
      r := b.(collider := b.collider.(lastValidPos := WithAxis(last, isX, Axis(b.position.position, isX))));
      collided := false;
    }

    /** `MoveAxis`: a continuous collider walks (see `WalkAxis`); any other
        moves `v * dt` once and checks once. */
    method MoveAxis(self: Entity, b: Body, colliders: seq<Entity>, velocity: Vec, dt: real, isX: bool,
                    ghost dom: set<Entity>, ghost obs: seq<Obstacle>)
      returns (r: Body)
      requires CollidersReady(View(dom), colliders) && obs == ObstaclesIn(View(dom), colliders)
      ensures r == Pass(self, b, obs, velocity, dt, isX).0
    {
      var axisVelocity := Axis(velocity, isX);
      if b.collider.continuous {
        PassContinuous(self, b, obs, velocity, dt, isX);
        r := WalkAxis(self, b, colliders, axisVelocity, dt, isX, dom, obs);
      } else {
        PassSingle(self, b, obs, velocity, dt, isX);
        r := Refresh(Shift(b, WithAxis(Zero, isX, Travel(axisVelocity, dt))));
        var collided;
        r, collided := CollisionAxis(self, r, colliders, axisVelocity, isX, dom, obs);
      }
    }

    /** The continuous loop of `MoveAxis`: one `sign(v) * dt` step per round
        while the round counter is below |v|, refreshing and checking after
        each step and stopping at the first collision. */
    method WalkAxis(self: Entity, b: Body, colliders: seq<Entity>, axisVelocity: real, dt: real, isX: bool,
                    ghost dom: set<Entity>, ghost obs: seq<Obstacle>)
      returns (r: Body)
      requires CollidersReady(View(dom), colliders) && obs == ObstaclesIn(View(dom), colliders)
      ensures r == Walk(self, b, obs, axisVelocity, dt, isX, Rounds(axisVelocity)).0
    {
      r := b;
      var i := 0;
      while (i as real) < Abs(axisVelocity)
        invariant 0 <= i <= Rounds(axisVelocity)
        invariant Walk(self, b, obs, axisVelocity, dt, isX, i) == (r, false)
        decreases Rounds(axisVelocity) - i
      {
        ghost var last := r;
        r := Refresh(Shift(r, WithAxis(Zero, isX, Travel(Sign(axisVelocity) as real, dt))));
        var collided;
        r, collided := CollisionAxis(self, r, colliders, Sign(axisVelocity) as real, isX, dom, obs);
        WalkStep(self, b, obs, axisVelocity, dt, isX, i, last, (r, collided));
        i := i + 1;
        if collided {
          WalkStops(self, b, obs, axisVelocity, dt, isX, i, Rounds(axisVelocity));
          return;
        }
      }
      assert i == Rounds(axisVelocity);
    }

    /** `MoveEntity`: clears `colliding`, then moves along X and then along Y,
        both with the velocity read before either. */
    method MoveEntity(self: Entity, b: Body, colliders: seq<Entity>, dt: real, ghost dom: set<Entity>,
                      ghost obs: seq<Obstacle>)
      returns (r: Body)
      requires CollidersReady(View(dom), colliders) && obs == ObstaclesIn(View(dom), colliders)
      ensures r == Move(self, b, obs, dt)
    {
      var velocity := b.physics.velocity;
      r := b.(collider := b.collider.(colliding := false));
      r := MoveAxis(self, r, colliders, velocity, dt, true, dom, obs);
      r := MoveAxis(self, r, colliders, velocity, dt, false, dom, obs);
    }

    /** `UpdateEntityPhysics`: integrates acceleration and drag into the
        velocity, stops a body slower than a tenth, moves it, clears its
        acceleration, and leaves the result in the entity's first Position,
        Physics and Collider. */
    method UpdateEntityPhysics(e: Entity, colliders: seq<Entity>, dt: real, normalize: Vec -> Vec,
                               ghost dom: set<Entity>)
      requires e in dom && CollidersReady(View(dom), colliders)
      requires Movable(e.components) && PhysicsOf(e.components).mass != 0.0
      modifies e
      ensures e.components ==
                WithBody(old(e.components), UpdateBody(e, old(BodyOf(e.components)),
                         ObstaclesIn(old(View(dom)), colliders), dt, dragCoefficient, normalize))
    {
      var cs := e.components;
      var b := BodyOf(cs);
      var physics := Accelerated(b.physics, dt);
      physics := Dragged(physics, dt, dragCoefficient, normalize);
      if ShouldStop(physics.velocity) {
        physics := physics.(velocity := Zero);
      }
      b := MoveEntity(e, b.(physics := physics), colliders, dt, dom, ObstaclesIn(View(dom), colliders));
      b := b.(physics := b.physics.(acceleration := Zero));
      e.components := WithBody(cs, b);
    }

    /** `Update(entities, deltaTime)`. `colliders` and `movers` are the
        results of the two queries, in the order the game enumerates them:
        the queries below return exactly their entities, and the loops run
        over the lists in that order.
        Refreshes every collider; then, for every mover in order, skips it
        when Static, throws when it has no Collider, and updates it otherwise. */
    method Update(entities: EntityMap, dt: real, normalize: Vec -> Vec, colliders: seq<Entity>, movers: seq<Entity>)
      returns (outcome: Outcome)
      requires Query(entities.State(), [ColliderKind]) == Ok(Elements(colliders)) && NoDups(colliders)
      requires Query(entities.State(), [PositionKind, PhysicsKind]) == Ok(Elements(movers)) && NoDups(movers)
      requires MoversReady(View(Domain(colliders, movers)), movers)
      modifies colliders, movers
      ensures (View(Domain(colliders, movers)), outcome) ==
                UpdateSpec(old(View(Domain(colliders, movers))), colliders, movers, dt, dragCoefficient, normalize)
    {
      ghost var dom := Domain(colliders, movers);
      ghost var w := View(dom);
      var allColliders := entities.GetEntitiesWithComponents([ColliderKind]);
      assert allColliders == Ok(Elements(colliders));
      outcome := MoveColliders(colliders, dom);
      if outcome != Done {
        return;
      }
      UpdateSpecRefreshed(w, colliders, movers, dt, dragCoefficient, normalize, View(dom));
      outcome := MoveAgainst(entities, colliders, movers, dt, normalize, dom);
    }

    /** The rest of `Update` once the colliders are refreshed: copies the
        collider list, queries the movers (exactly the entities of `movers`)
        and runs the mover loop against the copy. */
    method MoveAgainst(entities: EntityMap, colliders: seq<Entity>, movers: seq<Entity>, dt: real,
                       normalize: Vec -> Vec, ghost dom: set<Entity>) returns (outcome: Outcome)
      requires Query(entities.State(), [PositionKind, PhysicsKind]) == Ok(Elements(movers))
      requires forall i :: 0 <= i < |movers| ==> movers[i] in dom
      requires forall i :: 0 <= i < |colliders| ==> colliders[i] in dom
      requires CollidersReady(View(dom), colliders) && MoversReady(View(dom), movers)
      modifies movers
      ensures (View(dom), outcome) == MoveAll(old(View(dom)), colliders, movers, dt, dragCoefficient, normalize)
    {
      var list := CopyColliders(colliders);
      var allMovers := entities.GetEntitiesWithComponents([PositionKind, PhysicsKind]);
      assert allMovers == Ok(Elements(movers));
      outcome := MoveMovers(list, movers, dt, normalize, dom);
    }

    /** The loop of `Update` that copies the collider query into the list the
        movers collide against: the copy holds the same entities in the same order. */
    method CopyColliders(allColliders: seq<Entity>) returns (list: seq<Entity>)
      ensures list == allColliders
    {
      list := [];
      for i := 0 to |allColliders|
        invariant list == allColliders[..i]
      {
        PrefixStep(allColliders, i);
        list := list + [allColliders[i]];
      }
      assert allColliders[..|allColliders|] == allColliders;
    }

    /** The mover loop of `Update`: for every mover in order, skips it when
        Static, throws when it has no Collider, and updates it otherwise. */
    method MoveMovers(colliders: seq<Entity>, movers: seq<Entity>, dt: real, normalize: Vec -> Vec,
                      ghost dom: set<Entity>) returns (outcome: Outcome)
      requires forall i :: 0 <= i < |movers| ==> movers[i] in dom
      requires forall i :: 0 <= i < |colliders| ==> colliders[i] in dom
      requires CollidersReady(View(dom), colliders) && MoversReady(View(dom), movers)
      modifies movers
      ensures (View(dom), outcome) == MoveAll(old(View(dom)), colliders, movers, dt, dragCoefficient, normalize)
    {
      ghost var start := View(dom);
      outcome := Done;
      for i := 0 to |movers|
        invariant outcome == Done
        invariant (View(dom), Done) == MoveAll(start, colliders, movers[..i], dt, dragCoefficient, normalize)
      {
        var m := movers[i];
        ghost var before := View(dom);
        MoveAllNext(start, colliders, movers, i, dt, dragCoefficient, normalize);
        MoveOneEffect(before, colliders, m, dt, dragCoefficient, normalize);
        if m.HasComponent(StaticKind) {
          assert MoveOne(before, colliders, m, dt, dragCoefficient, normalize) == (before, Done);
          assert (View(dom), Done) == MoveAll(start, colliders, movers[..i + 1], dt, dragCoefficient, normalize);
          continue;
        }
        if !m.HasComponent(ColliderKind) {
          MoversReadyPrefix(start, movers, i + 1);
          MoveAllFaultSticks(start, colliders, movers, i + 1, dt, dragCoefficient, normalize);
          return Faulted(NullReference);
        }
        MoveOneUpdates(before, colliders, m, dt, dragCoefficient, normalize);
        assert m.components == before[m];
        UpdateEntityPhysics(m, colliders, dt, normalize, dom);
        ViewReplace(dom, m, before);
        assert View(dom) == MoveOne(before, colliders, m, dt, dragCoefficient, normalize).0;
        assert (View(dom), Done) == MoveAll(start, colliders, movers[..i + 1], dt, dragCoefficient, normalize);
      }
      assert movers[..|movers|] == movers;
    }
  }
}
