/** The physics pass over every entity it touches, as values: a world maps each
    such entity to its component list; the collider refresh and the mover loop
    of `Update` are functions from world to world, with the exception the C#
    code would throw. */
module PhysicsWorld {
  import opened Geometry
  import opened Wrappers
  import opened Lists
  import opened Ecs
  import opened PhysicsRules

  /** The first Position component. */
  function PositionOf(cs: seq<Component>): Position
    requires Carries(cs, PositionKind)
  {
    cs[IndexOfKind(cs, PositionKind)].pos
  }

  /** The first Physics component. */
  function PhysicsOf(cs: seq<Component>): Physics
    requires Carries(cs, PhysicsKind)
  {
    cs[IndexOfKind(cs, PhysicsKind)].phys
  }

  /** The first Collider component. */
  function ColliderOf(cs: seq<Component>): Collider
    requires Carries(cs, ColliderKind)
  {
    cs[IndexOfKind(cs, ColliderKind)].col
  }

  /** The mass of the first Physics component, if there is one. */
  function MassOf(cs: seq<Component>): Option<real> {
    if Carries(cs, PhysicsKind) then Some(PhysicsOf(cs).mass) else None
  }

  /** An entity the collision pass can move: it has a Position, a Physics and
      a Collider. */
  predicate Movable(cs: seq<Component>) {
    Carries(cs, PositionKind) && Carries(cs, PhysicsKind) && Carries(cs, ColliderKind)
  }

  function BodyOf(cs: seq<Component>): Body
    requires Movable(cs)
  {
    Body(PositionOf(cs), PhysicsOf(cs), ColliderOf(cs))
  }

  /** Two component lists with the same kinds at every place find the first
      component of each kind at the same place. */
  lemma KindsSameIndex(a: seq<Component>, b: seq<Component>, k: Kind)
    requires Kinds(a) == Kinds(b)
    ensures IndexOfKind(a, k) == IndexOfKind(b, k)
    ensures Carries(a, k) <==> Carries(b, k)
  {
    assert |a| == |Kinds(a)| == |b|;
    IndexOfKindFirst(a, k);
    IndexOfKindFirst(b, k);
    forall i | 0 <= i < |a| ensures KindOf(a[i]) == KindOf(b[i]) {
      assert Kinds(a)[i] == Kinds(b)[i];
    }
  }

  /** Where the body of a movable entity sits: its first Position, Physics and
      Collider. */
  predicate InBody(cs: seq<Component>, i: int) {
    i == IndexOfKind(cs, PositionKind) || i == IndexOfKind(cs, PhysicsKind) || i == IndexOfKind(cs, ColliderKind)
  }

  /** The body's three components written back in place: the first Position,
      Physics and Collider are replaced by the body's. */
  function WithBody(cs: seq<Component>, b: Body): (r: seq<Component>)
    requires Movable(cs)
    ensures |r| == |cs| && Kinds(r) == Kinds(cs) && Movable(r)
  {
    var r1 := cs[IndexOfKind(cs, PositionKind) := Pos(b.position)];
    var r2 := r1[IndexOfKind(cs, PhysicsKind) := Phys(b.physics)];
    var r3 := r2[IndexOfKind(cs, ColliderKind) := Col(b.collider)];
    SameKindUpdate(cs, IndexOfKind(cs, PositionKind), Pos(b.position));
    SameKindUpdate(r1, IndexOfKind(cs, PhysicsKind), Phys(b.physics));
    SameKindUpdate(r2, IndexOfKind(cs, ColliderKind), Col(b.collider));
    KindsSameIndex(r3, cs, PositionKind);
    KindsSameIndex(r3, cs, PhysicsKind);
    KindsSameIndex(r3, cs, ColliderKind);
    r3
  }

  /** Replacing a component by one of the same kind keeps every kind. */
  lemma SameKindUpdate(cs: seq<Component>, i: nat, c: Component)
    requires i < |cs| && KindOf(c) == KindOf(cs[i])
    ensures Kinds(cs[i := c]) == Kinds(cs)
  {
    assert forall j :: 0 <= j < |cs| ==> Kinds(cs[i := c])[j] == Kinds(cs)[j];
  }

  /** Where `WithBody` writes, and what; every other place keeps its
      component. */
  lemma WithBodySlots(cs: seq<Component>, b: Body)
    requires Movable(cs)
    ensures var r := WithBody(cs, b);
            && r[IndexOfKind(cs, PositionKind)] == Pos(b.position)
            && r[IndexOfKind(cs, PhysicsKind)] == Phys(b.physics)
            && r[IndexOfKind(cs, ColliderKind)] == Col(b.collider)
    ensures forall i :: 0 <= i < |cs| && !InBody(cs, i) ==> WithBody(cs, b)[i] == cs[i]
  {
    var ip, iph, ic := IndexOfKind(cs, PositionKind), IndexOfKind(cs, PhysicsKind), IndexOfKind(cs, ColliderKind);
    assert ip != iph && ip != ic && iph != ic by {
      assert KindOf(cs[ip]) != KindOf(cs[iph]) && KindOf(cs[ip]) != KindOf(cs[ic]) && KindOf(cs[iph]) != KindOf(cs[ic]);
    }
    var r := cs[ip := Pos(b.position)][iph := Phys(b.physics)][ic := Col(b.collider)];
    assert WithBody(cs, b) == r;
    forall i | 0 <= i < |cs| && !InBody(cs, i) ensures r[i] == cs[i] {
      assert i != ip && i != iph && i != ic;
    }
  }

  /** Writing a body back keeps the kind of every component. */
  lemma WithBodyKinds(cs: seq<Component>, b: Body)
    requires Movable(cs)
    ensures Kinds(WithBody(cs, b)) == Kinds(cs)
  {
    var r := WithBody(cs, b);
    WithBodySlots(cs, b);
    forall i | 0 <= i < |cs| ensures Kinds(r)[i] == Kinds(cs)[i] {
      if !InBody(cs, i) {
        assert r[i] == cs[i];
      }
    }
  }

  /** Reading back a written body gives that body. */
  lemma WithBodyRoundTrip(cs: seq<Component>, b: Body)
    requires Movable(cs)
    ensures Movable(WithBody(cs, b)) && BodyOf(WithBody(cs, b)) == b
  {
    var r := WithBody(cs, b);
    WithBodyKinds(cs, b);
    WithBodySlots(cs, b);
    KindsSameIndex(r, cs, PositionKind);
    KindsSameIndex(r, cs, PhysicsKind);
    KindsSameIndex(r, cs, ColliderKind);
    assert PositionOf(r) == b.position && PhysicsOf(r) == b.physics && ColliderOf(r) == b.collider;
  }

  /** The mass of a written-back component list is the body's. */
  lemma WithBodyMass(cs: seq<Component>, b: Body)
    requires Movable(cs)
    ensures MassOf(WithBody(cs, b)) == Some(b.physics.mass)
  {
    WithBodyRoundTrip(cs, b);
  }

  /** Two lists with the same kinds that agree outside the body's places
      give the same list once a body is written back. */
  lemma WithBodyAgree(x: seq<Component>, y: seq<Component>, b: Body)
    requires Movable(x) && Movable(y) && Kinds(x) == Kinds(y)
    requires forall i :: 0 <= i < |x| && !InBody(x, i) ==> x[i] == y[i]
    ensures WithBody(x, b) == WithBody(y, b)
  {
    KindsSameIndex(x, y, PositionKind);
    KindsSameIndex(x, y, PhysicsKind);
    KindsSameIndex(x, y, ColliderKind);
    WithBodySlots(x, b);
    WithBodySlots(y, b);
    var a, c := WithBody(x, b), WithBody(y, b);
    forall i | 0 <= i < |x| ensures a[i] == c[i] {
      if i == IndexOfKind(x, PositionKind) {
      } else if i == IndexOfKind(x, PhysicsKind) {
      } else if i == IndexOfKind(x, ColliderKind) {
      } else {
        assert !InBody(x, i) && !InBody(y, i);
        assert a[i] == x[i] == y[i] == c[i];
      }
    }
    Pointwise(a, c);
  }

  /** Lists equal at every place are equal. */
  lemma Pointwise(a: seq<Component>, c: seq<Component>)
    requires |a| == |c| && forall i :: 0 <= i < |a| ==> a[i] == c[i]
    ensures a == c
  {
  }

  /** The second write wins. */
  lemma WithBodyTwice(cs: seq<Component>, b1: Body, b2: Body)
    requires Movable(cs)
    ensures WithBody(WithBody(cs, b1), b2) == WithBody(cs, b2)
  {
    var r := WithBody(cs, b1);
    KindsSameIndex(r, cs, PositionKind);
    KindsSameIndex(r, cs, PhysicsKind);
    KindsSameIndex(r, cs, ColliderKind);
    WithBodySlots(cs, b1);
    WithBodyAgree(r, cs, b2);
  }

  /** Writing back the body just read changes nothing. */
  lemma WithBodyOwn(cs: seq<Component>)
    requires Movable(cs)
    ensures WithBody(cs, BodyOf(cs)) == cs
  {
    var r := WithBody(cs, BodyOf(cs));
    WithBodySlots(cs, BodyOf(cs));
    forall i | 0 <= i < |cs| ensures r[i] == cs[i] {
      if !InBody(cs, i) {
        assert r[i] == cs[i];
      }
    }
    assert |r| == |cs|;
    assert r == cs;
  }

  /** `MoveCollider` on a component list: the first Collider's rectangle
      follows the first Position. */
  function RefreshedComponents(cs: seq<Component>): (r: seq<Component>)
    requires Carries(cs, PositionKind) && Carries(cs, ColliderKind)
    ensures |r| == |cs| && Kinds(r) == Kinds(cs)
    ensures Carries(r, PositionKind) && Carries(r, ColliderKind)
  {
    var r := cs[IndexOfKind(cs, ColliderKind) := Col(Refreshed(ColliderOf(cs), PositionOf(cs)))];
    SameKindUpdate(cs, IndexOfKind(cs, ColliderKind), Col(Refreshed(ColliderOf(cs), PositionOf(cs))));
    KindsSameIndex(r, cs, PositionKind);
    KindsSameIndex(r, cs, ColliderKind);
    r
  }

  /** Refreshing changes only the first Collider, keeps every kind and the
      mass, and the new Collider is the refreshed one. */
  lemma RefreshedComponentsFacts(cs: seq<Component>)
    requires Carries(cs, PositionKind) && Carries(cs, ColliderKind)
    ensures var r := RefreshedComponents(cs);
            && Kinds(r) == Kinds(cs) && MassOf(r) == MassOf(cs)
            && Carries(r, PositionKind) && Carries(r, ColliderKind)
            && PositionOf(r) == PositionOf(cs)
            && ColliderOf(r) == Refreshed(ColliderOf(cs), PositionOf(cs))
            && forall i :: 0 <= i < |cs| && i != IndexOfKind(cs, ColliderKind) ==> r[i] == cs[i]
  {
    var r := RefreshedComponents(cs);
    assert Kinds(r) == Kinds(cs) by {
      forall j | 0 <= j < |cs| ensures Kinds(r)[j] == Kinds(cs)[j] { }
    }
    KindsSameIndex(r, cs, PositionKind);
    KindsSameIndex(r, cs, PhysicsKind);
    KindsSameIndex(r, cs, ColliderKind);
    assert PositionKind != ColliderKind;
  }

  /** On a movable entity, refreshing the components is refreshing the body. */
  lemma RefreshedComponentsIsRefresh(cs: seq<Component>)
    requires Movable(cs)
    ensures RefreshedComponents(cs) == WithBody(cs, Refresh(BodyOf(cs)))
  {
    var r, a := RefreshedComponents(cs), WithBody(cs, Refresh(BodyOf(cs)));
    WithBodySlots(cs, Refresh(BodyOf(cs)));
    forall i | 0 <= i < |cs| ensures r[i] == a[i] {
      if !InBody(cs, i) {
        assert a[i] == cs[i];
      }
    }
    assert |r| == |a|;
    assert r == a;
  }

  /** Refreshing twice is refreshing once. */
  lemma RefreshedComponentsIdempotent(cs: seq<Component>)
    requires Carries(cs, PositionKind) && Carries(cs, ColliderKind)
    ensures RefreshedComponents(RefreshedComponents(cs)) == RefreshedComponents(cs)
  {
    var r := RefreshedComponents(cs);
    RefreshedComponentsFacts(cs);
    KindsSameIndex(r, cs, ColliderKind);
    RefreshedIdempotent(ColliderOf(cs), PositionOf(cs));
  }

  /** Each entity the pass touches, with its component list. */
  type World = map<Entity, seq<Component>>

  /** What the scan reads of entity `e` with components `cs`. */
  function ObstacleOf(e: Entity, cs: seq<Component>): Obstacle
    requires Carries(cs, ColliderKind)
  {
    Obstacle(e, ColliderOf(cs).collisionLayer, ColliderOf(cs).collider)
  }

  /** Every entry of the collider list is in the world and has a Collider. */
  predicate CollidersReady(w: World, colliders: seq<Entity>) {
    forall i :: 0 <= i < |colliders| ==> colliders[i] in w && Carries(w[colliders[i]], ColliderKind)
  }

  /** Every mover is in the world and has a Position and a Physics, and the
      first Physics of every mover that is not Static has a non-zero mass. */
  predicate MoversReady(w: World, movers: seq<Entity>) {
    forall i :: 0 <= i < |movers| ==>
      && movers[i] in w
      && Carries(w[movers[i]], PositionKind) && Carries(w[movers[i]], PhysicsKind)
      && (!Carries(w[movers[i]], StaticKind) ==> MassOf(w[movers[i]]) != Some(0.0))
  }

  /** The collider list as the scan of `CollisionAxis` reads it. */
  function ObstaclesIn(w: World, colliders: seq<Entity>): (obs: seq<Obstacle>)
    requires CollidersReady(w, colliders)
    ensures |obs| == |colliders|
    ensures forall i :: 0 <= i < |colliders| ==> obs[i] == ObstacleOf(colliders[i], w[colliders[i]])
  {
    seq(|colliders|, i requires 0 <= i < |colliders| => ObstacleOf(colliders[i], w[colliders[i]]))
  }

  /** What the pass never changes: which entities there are, the kinds of
      their components, and their masses. */
  predicate Stable(w: World, w': World) {
    && w'.Keys == w.Keys
    && forall x {:trigger Alike(w'[x], w[x])} :: x in w ==> Alike(w'[x], w[x])
  }

  /** Two component lists of the same kinds, in the same order, and the same
      mass. */
  predicate Alike(a: seq<Component>, b: seq<Component>) {
    Kinds(a) == Kinds(b) && MassOf(a) == MassOf(b)
  }

  /** Refreshing one entity keeps the world stable. */
  lemma RefreshStepStable(w: World, e: Entity)
    requires e in w && Carries(w[e], PositionKind) && Carries(w[e], ColliderKind)
    ensures Stable(w, w[e := RefreshedComponents(w[e])])
  {
    RefreshedComponentsFacts(w[e]);
    ReplaceStable(w, e, RefreshedComponents(w[e]));
  }

  /** Replacing one entity's components by ones of the same kinds and mass
      keeps the world stable. */
  lemma ReplaceStable(w: World, m: Entity, r: seq<Component>)
    requires m in w && Kinds(r) == Kinds(w[m]) && MassOf(r) == MassOf(w[m])
    ensures Stable(w, w[m := r])
  {
    forall x | x in w ensures Alike(w[m := r][x], w[x]) {
    }
  }

  /** Writing a body back keeps the world stable when the mass is kept. */
  lemma WriteStepStable(w: World, m: Entity, b: Body)
    requires m in w && Movable(w[m]) && b.physics.mass == PhysicsOf(w[m]).mass
    ensures Stable(w, w[m := WithBody(w[m], b)])
  {
    WithBodyMass(w[m], b);
    WithBodyKinds(w[m], b);
    ReplaceStable(w, m, WithBody(w[m], b));
  }

  /** A stable world keeps what each entity carries. */
  lemma StableCarries(w: World, w': World, x: Entity, k: Kind)
    requires Stable(w, w') && x in w
    ensures x in w' && (Carries(w'[x], k) <==> Carries(w[x], k))
  {
    assert Alike(w'[x], w[x]);
    KindsSameIndex(w'[x], w[x], k);
  }

  /** Every entity of `es` is in the world with a Position and a Collider:
      what `MoveCollider` reads. */
  predicate Located(w: World, es: seq<Entity>) {
    forall i :: 0 <= i < |es| ==> es[i] in w && Carries(w[es[i]], PositionKind) && Carries(w[es[i]], ColliderKind)
  }

  lemma LocatedAppend(w: World, init: seq<Entity>, e: Entity)
    ensures Located(w, init + [e]) <==>
            Located(w, init) && e in w && Carries(w[e], PositionKind) && Carries(w[e], ColliderKind)
  {
    if Located(w, init + [e]) {
      assert e == (init + [e])[|init|];
      forall i | 0 <= i < |init| ensures init[i] in w && Carries(w[init[i]], PositionKind) && Carries(w[init[i]], ColliderKind) {
        assert init[i] == (init + [e])[i];
      }
    }
  }

  /** A stable world keeps every entity located. */
  lemma StableKeepsLocated(w: World, w': World, es: seq<Entity>)
    requires Stable(w, w') && Located(w, es)
    ensures Located(w', es)
  {
    forall i | 0 <= i < |es|
      ensures es[i] in w' && Carries(w'[es[i]], PositionKind) && Carries(w'[es[i]], ColliderKind)
    {
      StableCarries(w, w', es[i], PositionKind);
      StableCarries(w, w', es[i], ColliderKind);
    }
  }

  lemma StableTrans(w1: World, w2: World, w3: World)
    requires Stable(w1, w2) && Stable(w2, w3)
    ensures Stable(w1, w3)
  {
    forall x | x in w1 ensures Alike(w3[x], w1[x]) {
      assert Alike(w2[x], w1[x]) && Alike(w3[x], w2[x]);
    }
  }

  /** Readiness only depends on what `Stable` keeps. */
  lemma StableKeepsReady(w: World, w': World, colliders: seq<Entity>, movers: seq<Entity>)
    requires Stable(w, w')
    ensures CollidersReady(w, colliders) ==> CollidersReady(w', colliders)
    ensures MoversReady(w, movers) ==> MoversReady(w', movers)
  {
    forall x, k | x in w ensures Carries(w'[x], k) <==> Carries(w[x], k) {
      StableCarries(w, w', x, k);
    }
    forall x | x in w ensures MassOf(w'[x]) == MassOf(w[x]) {
      assert Alike(w'[x], w[x]);
    }
  }

  /** One iteration of `MoveColliders` on entity `e`: its rectangle follows
      its position; without a Position or a Collider it throws. */
  function RefreshOne(w: World, e: Entity): (r: (World, Outcome))
    requires e in w
    ensures Stable(w, r.0)
    ensures r.1 == Done <==> Carries(w[e], PositionKind) && Carries(w[e], ColliderKind)
    ensures r.1 != Done ==> r == (w, Faulted(NullReference))
  {
    if !Carries(w[e], PositionKind) || !Carries(w[e], ColliderKind) then (w, Faulted(NullReference))
    else
      RefreshStepStable(w, e);
      (w[e := RefreshedComponents(w[e])], Done)
  }

  /** `MoveColliders` over `colliders`, in list order, stopping at the first
      exception with the earlier entities already refreshed. */
  function RefreshAll(w: World, colliders: seq<Entity>): (r: (World, Outcome))
    requires forall i :: 0 <= i < |colliders| ==> colliders[i] in w
    ensures Stable(w, r.0)
    decreases |colliders|
  {
    if colliders == [] then (w, Done)
    else
      var n := |colliders| - 1;
      var before := RefreshAll(w, colliders[..n]);
      if before.1 != Done then before
      else
        var next := RefreshOne(before.0, colliders[n]);
        StableTrans(w, before.0, next.0);
        next
  }

  /** Once the refresh completes, every collider has a Position and a
      Collider. */
  lemma {:induction false} RefreshAllLocated(w: World, colliders: seq<Entity>)
    requires forall i :: 0 <= i < |colliders| ==> colliders[i] in w
    ensures RefreshAll(w, colliders).1 == Done ==> Located(RefreshAll(w, colliders).0, colliders)
  {
    if colliders != [] {
      var n := |colliders| - 1;
      var init, e := colliders[..n], colliders[n];
      RefreshAllLocated(w, init);
      RefreshAllUnfold(w, colliders);
      SplitLast(colliders);
      LocatedStep(RefreshAll(w, init), init, e, RefreshAll(w, colliders));
    }
  }

  /** One step of `RefreshAllLocated`: refreshing `e` keeps every located
      entity located, and locates `e`. */
  lemma LocatedStep(before: (World, Outcome), init: seq<Entity>, e: Entity, r: (World, Outcome))
    requires e in before.0
    requires before.1 == Done ==> Located(before.0, init)
    requires r == if before.1 != Done then before else RefreshOne(before.0, e)
    ensures r.1 == Done ==> Located(r.0, init + [e])
  {
    if r.1 == Done {
      LocatedAppend(before.0, init, e);
      StableKeepsLocated(before.0, r.0, init + [e]);
    }
  }

  /** The refresh completes exactly when every collider has a Position and a
      Collider to begin with; otherwise it fails with a null reference. */
  lemma {:induction false} RefreshAllOutcome(w: World, colliders: seq<Entity>)
    requires forall i :: 0 <= i < |colliders| ==> colliders[i] in w
    ensures var r := RefreshAll(w, colliders);
            (r.1 == Done <==> Located(w, colliders)) && (r.1 != Done ==> r.1 == Faulted(NullReference))
  {
    if colliders != [] {
      var n := |colliders| - 1;
      var init, e := colliders[..n], colliders[n];
      RefreshAllOutcome(w, init);
      RefreshAllUnfold(w, colliders);
      SplitLast(colliders);
      OutcomeStep(w, RefreshAll(w, init), init, e, RefreshAll(w, colliders));
    }
  }

  /** A non-empty list is its prefix followed by its last entry. */
  lemma SplitLast<T>(s: seq<T>)
    requires s != []
    ensures s == s[..|s| - 1] + [s[|s| - 1]]
  {
  }

  /** The last iteration of `RefreshAll`, written out. */
  lemma RefreshAllUnfold(w: World, colliders: seq<Entity>)
    requires colliders != [] && forall i :: 0 <= i < |colliders| ==> colliders[i] in w
    ensures var n := |colliders| - 1;
            var before := RefreshAll(w, colliders[..n]);
            RefreshAll(w, colliders) == if before.1 != Done then before else RefreshOne(before.0, colliders[n])
  {
  }

  /** The refresh over one more collider: the next iteration on the outcome
      of the earlier ones. */
  lemma RefreshAllNext(w: World, colliders: seq<Entity>, i: nat)
    requires forall j :: 0 <= j < |colliders| ==> colliders[j] in w
    requires i < |colliders| && RefreshAll(w, colliders[..i]).1 == Done
    ensures RefreshAll(w, colliders[..i + 1]) == RefreshOne(RefreshAll(w, colliders[..i]).0, colliders[i])
  {
    assert colliders[..i + 1][..i] == colliders[..i];
    RefreshAllUnfold(w, colliders[..i + 1]);
  }

  /** One step of `RefreshAllOutcome`. */
  lemma OutcomeStep(w: World, before: (World, Outcome), init: seq<Entity>, e: Entity, r: (World, Outcome))
    requires e in w && Stable(w, before.0)
    requires before.1 == Done <==> Located(w, init)
    requires before.1 != Done ==> before.1 == Faulted(NullReference)
    requires r == if before.1 != Done then before else RefreshOne(before.0, e)
    ensures r.1 == Done <==> Located(w, init + [e])
    ensures r.1 != Done ==> r.1 == Faulted(NullReference)
  {
    LocatedAppend(w, init, e);
    StableCarries(w, before.0, e, PositionKind);
    StableCarries(w, before.0, e, ColliderKind);
  }

  /** What a completed refresh leaves: every collider's components
      refreshed, and every other entity as it was. */
  lemma {:induction false} RefreshAllEffect(w: World, colliders: seq<Entity>)
    requires forall i :: 0 <= i < |colliders| ==> colliders[i] in w
    ensures var r := RefreshAll(w, colliders);
            r.1 == Done ==> Located(w, colliders) && RefreshedBy(w, colliders, r.0)
  {
    if colliders != [] && RefreshAll(w, colliders).1 == Done {
      var n := |colliders| - 1;
      var init, e := colliders[..n], colliders[n];
      RefreshAllEffect(w, init);
      RefreshAllUnfold(w, colliders);
      SplitLast(colliders);
      EffectStep(w, RefreshAll(w, init), init, e, RefreshAll(w, colliders));
    }
  }

  /** One step of `RefreshAllEffect`, on the outcome of the earlier
      iterations. */
  lemma EffectStep(w: World, before: (World, Outcome), init: seq<Entity>, e: Entity, r: (World, Outcome))
    requires e in w && Stable(w, before.0)
    requires r == if before.1 != Done then before else RefreshOne(before.0, e)
    requires r.1 == Done
    requires before.1 == Done ==> Located(w, init) && RefreshedBy(w, init, before.0)
    ensures Located(w, init + [e]) && RefreshedBy(w, init + [e], r.0)
  {
    StableCarries(w, before.0, e, PositionKind);
    StableCarries(w, before.0, e, ColliderKind);
    LocatedAppend(w, init, e);
    RefreshedStep(w, before.0, init, e);
  }

  /** `w'` is `w` with the components of every entity of `es` refreshed, and
      every other entity as it was. */
  predicate RefreshedBy(w: World, es: seq<Entity>, w': World)
    requires Located(w, es)
  {
    && w'.Keys == w.Keys
    && (forall i :: 0 <= i < |es| ==> w'[es[i]] == Refreshes(w)[es[i]])
    && (forall x :: x in w && x !in es ==> w'[x] == w[x])
  }

  /** Every entity of `w` that has a Position and a Collider, with the
      components one refresh gives it. */
  function Refreshes(w: World): map<Entity, seq<Component>> {
    map x | x in w && Carries(w[x], PositionKind) && Carries(w[x], ColliderKind) :: RefreshedComponents(w[x])
  }

  /** One step of `RefreshAllEffect`: refreshing `e` after `init` leaves every
      entity of `init + [e]` refreshed once, and no other entity changed. */
  lemma RefreshedStep(w: World, before: World, init: seq<Entity>, e: Entity)
    requires Located(w, init + [e]) && Located(w, init)
    requires e in w && Carries(w[e], PositionKind) && Carries(w[e], ColliderKind)
    requires RefreshedBy(w, init, before)
    ensures RefreshOne(before, e).1 == Done
    ensures RefreshedBy(w, init + [e], RefreshOne(before, e).0)
  {
    RefreshOneAgain(w, before, init, e);
    RefreshedByExtend(w, before, init, e);
  }

  /** Refreshing `e` once more gives the components one refresh of `w` gives,
      whether or not `e` was among the entities refreshed already. */
  lemma RefreshOneAgain(w: World, before: World, init: seq<Entity>, e: Entity)
    requires Located(w, init)
    requires e in w && Carries(w[e], PositionKind) && Carries(w[e], ColliderKind)
    requires RefreshedBy(w, init, before)
    ensures RefreshOne(before, e) == (before[e := Refreshes(w)[e]], Done)
  {
    if e in init {
      var k :| 0 <= k < |init| && init[k] == e;
      RefreshedComponentsIdempotent(w[e]);
    }
  }

  /** Recording one more refreshed entity extends `RefreshedBy` by it. */
  lemma RefreshedByExtend(w: World, before: World, init: seq<Entity>, e: Entity)
    requires Located(w, init + [e]) && Located(w, init)
    requires e in w && Carries(w[e], PositionKind) && Carries(w[e], ColliderKind)
    requires RefreshedBy(w, init, before)
    ensures RefreshedBy(w, init + [e], before[e := Refreshes(w)[e]])
  {
    AgreeExtend(w, before, init, e, Refreshes(w));
  }

  /** One more entry written into a map that agrees with `target` on `init`
      and with `w` elsewhere: it then agrees with `target` on `init + [e]`. */
  lemma AgreeExtend<V>(w: map<Entity, V>, before: map<Entity, V>, init: seq<Entity>, e: Entity,
                       target: map<Entity, V>)
    requires e in w && e in target && before.Keys == w.Keys
    requires forall i :: 0 <= i < |init| ==> init[i] in w && init[i] in target && before[init[i]] == target[init[i]]
    requires forall x :: x in w && x !in init ==> before[x] == w[x]
    ensures var r := before[e := target[e]];
            && r.Keys == w.Keys
            && (forall i :: 0 <= i < |init + [e]| ==> r[(init + [e])[i]] == target[(init + [e])[i]])
            && (forall x :: x in w && x !in init + [e] ==> r[x] == w[x])
  {
    var r := before[e := target[e]];
    forall i | 0 <= i < |init + [e]| ensures r[(init + [e])[i]] == target[(init + [e])[i]] {
      if i < |init| {
        assert (init + [e])[i] == init[i];
      }
    }
  }

  /** A collider list with a prefix that faulted faults the same way. */
  lemma {:induction false} RefreshAllFaultSticks(w: World, colliders: seq<Entity>, k: nat)
    requires forall i :: 0 <= i < |colliders| ==> colliders[i] in w
    requires k <= |colliders| && RefreshAll(w, colliders[..k]).1 != Done
    ensures RefreshAll(w, colliders) == RefreshAll(w, colliders[..k])
    decreases |colliders| - k
  {
    if k < |colliders| {
      var n := |colliders| - 1;
      assert colliders[..n][..k] == colliders[..k];
      RefreshAllFaultSticks(w, colliders[..n], k);
    } else {
      assert colliders[..k] == colliders;
    }
  }

  /** One iteration of the mover loop of `Update`: a Static mover is skipped;
      a mover without a Collider throws; any other mover is updated against
      the collider list as it reads now. */
  function MoveOne(w: World, colliders: seq<Entity>, m: Entity, dt: real, coefficient: real,
                   normalize: Vec -> Vec): (r: (World, Outcome))
    requires CollidersReady(w, colliders) && MoversReady(w, [m])
    ensures Stable(w, r.0)
  {
    assert m == [m][0];
    if Carries(w[m], StaticKind) then (w, Done)
    else if !Carries(w[m], ColliderKind) then (w, Faulted(NullReference))
    else
      var cs := w[m];
      var b := UpdateBody(m, BodyOf(cs), ObstaclesIn(w, colliders), dt, coefficient, normalize);
      WriteStepStable(w, m, b);
      (w[m := WithBody(cs, b)], Done)
  }

  /** The mover loop of `Update` over `movers`, in order, stopping at the
      first exception. */
  function MoveAll(w: World, colliders: seq<Entity>, movers: seq<Entity>, dt: real, coefficient: real,
                   normalize: Vec -> Vec): (r: (World, Outcome))
    requires CollidersReady(w, colliders) && MoversReady(w, movers)
    ensures Stable(w, r.0)
    decreases |movers|
  {
    if movers == [] then (w, Done)
    else
      var n := |movers| - 1;
      var before := MoveAll(w, colliders, movers[..n], dt, coefficient, normalize);
      if before.1 != Done then before
      else
        StableKeepsReady(w, before.0, colliders, [movers[n]]);
        var next := MoveOne(before.0, colliders, movers[n], dt, coefficient, normalize);
        StableTrans(w, before.0, next.0);
        next
  }

  /** The acceleration of the first Physics component, if there is one. */
  function AccelerationOf(cs: seq<Component>): Option<Vec> {
    if Carries(cs, PhysicsKind) then Some(PhysicsOf(cs).acceleration) else None
  }

  /** What one iteration of the mover loop does: a Static mover is left as
      it is; a mover without a Collider throws and changes nothing; any other
      mover ends with no acceleration; no other entity changes. */
  lemma MoveOneEffect(w: World, colliders: seq<Entity>, m: Entity, dt: real, coefficient: real,
                      normalize: Vec -> Vec)
    requires CollidersReady(w, colliders) && MoversReady(w, [m])
    ensures var r := MoveOne(w, colliders, m, dt, coefficient, normalize);
            && m in w
            && (r.1 == Done <==> Carries(w[m], StaticKind) || Carries(w[m], ColliderKind))
            && (r.1 != Done ==> r == (w, Faulted(NullReference)))
            && (Carries(w[m], StaticKind) ==> r.0 == w)
            && (forall x :: x in w && x != m ==> r.0[x] == w[x])
            && (r.1 == Done && !Carries(w[m], StaticKind) ==> AccelerationOf(r.0[m]) == Some(Zero))
  {
    assert m == [m][0];
    var cs := w[m];
    if !Carries(cs, StaticKind) && Carries(cs, ColliderKind) {
      var b := UpdateBody(m, BodyOf(cs), ObstaclesIn(w, colliders), dt, coefficient, normalize);
      WithBodyRoundTrip(cs, b);
    }
  }

  /** A mover that is not Static and has a Collider takes the updated body. */
  lemma MoveOneUpdates(w: World, colliders: seq<Entity>, m: Entity, dt: real, coefficient: real,
                       normalize: Vec -> Vec)
    requires CollidersReady(w, colliders) && MoversReady(w, [m])
    requires m in w && !Carries(w[m], StaticKind) && Carries(w[m], ColliderKind)
    ensures Movable(w[m]) && PhysicsOf(w[m]).mass != 0.0
    ensures MoveOne(w, colliders, m, dt, coefficient, normalize) ==
              (w[m := WithBody(w[m], UpdateBody(m, BodyOf(w[m]), ObstaclesIn(w, colliders), dt, coefficient, normalize))], Done)
  {
    assert m == [m][0];
  }

  /** The last iteration of `MoveAll`, written out. */
  lemma MoveAllUnfold(w: World, colliders: seq<Entity>, movers: seq<Entity>, dt: real, coefficient: real,
                      normalize: Vec -> Vec)
    requires CollidersReady(w, colliders) && MoversReady(w, movers) && movers != []
    ensures var n := |movers| - 1;
            var before := MoveAll(w, colliders, movers[..n], dt, coefficient, normalize);
            && CollidersReady(before.0, colliders) && MoversReady(before.0, [movers[n]])
            && MoveAll(w, colliders, movers, dt, coefficient, normalize) ==
                 if before.1 != Done then before
                 else MoveOne(before.0, colliders, movers[n], dt, coefficient, normalize)
  {
    var n := |movers| - 1;
    var before := MoveAll(w, colliders, movers[..n], dt, coefficient, normalize);
    StableKeepsReady(w, before.0, colliders, [movers[n]]);
  }

  /** The mover loop over one more mover: the next iteration on the outcome
      of the earlier ones. */
  lemma MoveAllNext(w: World, colliders: seq<Entity>, movers: seq<Entity>, i: nat, dt: real, coefficient: real,
                    normalize: Vec -> Vec)
    requires CollidersReady(w, colliders) && MoversReady(w, movers) && i < |movers|
    requires MoveAll(w, colliders, movers[..i], dt, coefficient, normalize).1 == Done
    ensures MoversReady(w, movers[..i]) && MoversReady(w, movers[..i + 1])
    ensures var before := MoveAll(w, colliders, movers[..i], dt, coefficient, normalize);
            && CollidersReady(before.0, colliders) && MoversReady(before.0, [movers[i]])
            && MoveAll(w, colliders, movers[..i + 1], dt, coefficient, normalize) ==
                 MoveOne(before.0, colliders, movers[i], dt, coefficient, normalize)
  {
    MoversReadyPrefix(w, movers, i);
    MoversReadyPrefix(w, movers, i + 1);
    assert movers[..i + 1][..i] == movers[..i];
    MoveAllUnfold(w, colliders, movers[..i + 1], dt, coefficient, normalize);
  }

  /** A mover list with a prefix that faulted faults the same way. */
  lemma {:induction false} MoveAllFaultSticks(w: World, colliders: seq<Entity>, movers: seq<Entity>, k: nat, dt: real,
                                              coefficient: real, normalize: Vec -> Vec)
    requires CollidersReady(w, colliders) && MoversReady(w, movers) && k <= |movers|
    requires MoversReady(w, movers[..k]) && MoveAll(w, colliders, movers[..k], dt, coefficient, normalize).1 != Done
    ensures MoveAll(w, colliders, movers, dt, coefficient, normalize) == MoveAll(w, colliders, movers[..k], dt, coefficient, normalize)
    decreases |movers| - k
  {
    if k < |movers| {
      var n := |movers| - 1;
      MoversReadyPrefix(w, movers, n);
      assert movers[..n][..k] == movers[..k];
      MoveAllFaultSticks(w, colliders, movers[..n], k, dt, coefficient, normalize);
    } else {
      assert movers[..k] == movers;
    }
  }

  /** Every mover is Static or has a Collider: what the mover loop needs to
      complete. */
  predicate Handled(w: World, movers: seq<Entity>) {
    forall i :: 0 <= i < |movers| ==>
      movers[i] in w && (Carries(w[movers[i]], StaticKind) || Carries(w[movers[i]], ColliderKind))
  }

  lemma HandledAppend(w: World, init: seq<Entity>, m: Entity)
    ensures Handled(w, init + [m]) <==>
            Handled(w, init) && m in w && (Carries(w[m], StaticKind) || Carries(w[m], ColliderKind))
  {
    if Handled(w, init + [m]) {
      assert m == (init + [m])[|init|];
      forall i | 0 <= i < |init|
        ensures init[i] in w && (Carries(w[init[i]], StaticKind) || Carries(w[init[i]], ColliderKind))
      {
        assert init[i] == (init + [m])[i];
      }
    }
  }

  /** The mover loop completes exactly when every mover is Static or has a
      Collider; otherwise it fails with a null reference. */
  lemma {:induction false} MoveAllOutcome(w: World, colliders: seq<Entity>, movers: seq<Entity>, dt: real,
                                          coefficient: real, normalize: Vec -> Vec)
    requires CollidersReady(w, colliders) && MoversReady(w, movers)
    ensures var r := MoveAll(w, colliders, movers, dt, coefficient, normalize);
            (r.1 == Done <==> Handled(w, movers)) && (r.1 != Done ==> r.1 == Faulted(NullReference))
  {
    if movers != [] {
      var n := |movers| - 1;
      var init, m := movers[..n], movers[n];
      MoversReadyPrefix(w, movers, n);
      MoveAllOutcome(w, colliders, init, dt, coefficient, normalize);
      MoveAllUnfold(w, colliders, movers, dt, coefficient, normalize);
      SplitLast(movers);
      MoveOutcomeStep(w, colliders, MoveAll(w, colliders, init, dt, coefficient, normalize), init, m,
                      MoveAll(w, colliders, movers, dt, coefficient, normalize), dt, coefficient, normalize);
    }
  }

  /** A prefix of a ready mover list is ready. */
  lemma MoversReadyPrefix(w: World, movers: seq<Entity>, n: nat)
    requires MoversReady(w, movers) && n <= |movers|
    ensures MoversReady(w, movers[..n]) && (n < |movers| ==> MoversReady(w, [movers[n]]))
  {
    if n < |movers| {
      assert [movers[n]][0] == movers[n];
    }
  }

  /** One step of `MoveAllOutcome`. */
  lemma MoveOutcomeStep(w: World, colliders: seq<Entity>, before: (World, Outcome), init: seq<Entity>, m: Entity,
                        r: (World, Outcome), dt: real, coefficient: real, normalize: Vec -> Vec)
    requires m in w && Stable(w, before.0)
    requires CollidersReady(before.0, colliders) && MoversReady(before.0, [m])
    requires before.1 == Done <==> Handled(w, init)
    requires before.1 != Done ==> before.1 == Faulted(NullReference)
    requires r == if before.1 != Done then before else MoveOne(before.0, colliders, m, dt, coefficient, normalize)
    ensures r.1 == Done <==> Handled(w, init + [m])
    ensures r.1 != Done ==> r.1 == Faulted(NullReference)
  {
    HandledAppend(w, init, m);
    StableCarries(w, before.0, m, StaticKind);
    StableCarries(w, before.0, m, ColliderKind);
    MoveOneEffect(before.0, colliders, m, dt, coefficient, normalize);
  }

  /** Every entity that is not a mover, or is Static, is as it was. */
  predicate Untouched(w: World, movers: seq<Entity>, w': World) {
    forall x :: x in w && x in w' && (x !in movers || Carries(w[x], StaticKind)) ==> w'[x] == w[x]
  }

  /** The mover loop never changes a Static entity or an entity that is not
      a mover, whether it completes or not. */
  lemma {:induction false} MoveAllUntouched(w: World, colliders: seq<Entity>, movers: seq<Entity>, dt: real,
                                            coefficient: real, normalize: Vec -> Vec)
    requires CollidersReady(w, colliders) && MoversReady(w, movers)
    ensures Untouched(w, movers, MoveAll(w, colliders, movers, dt, coefficient, normalize).0)
  {
    if movers != [] {
      var n := |movers| - 1;
      var init, m := movers[..n], movers[n];
      MoversReadyPrefix(w, movers, n);
      MoveAllUntouched(w, colliders, init, dt, coefficient, normalize);
      MoveAllUnfold(w, colliders, movers, dt, coefficient, normalize);
      SplitLast(movers);
      UntouchedStep(w, colliders, MoveAll(w, colliders, init, dt, coefficient, normalize), init, m,
                    MoveAll(w, colliders, movers, dt, coefficient, normalize), dt, coefficient, normalize);
    }
  }

  /** One step of `MoveAllUntouched`. */
  lemma UntouchedStep(w: World, colliders: seq<Entity>, before: (World, Outcome), init: seq<Entity>, m: Entity,
                      r: (World, Outcome), dt: real, coefficient: real, normalize: Vec -> Vec)
    requires m in w && Stable(w, before.0)
    requires CollidersReady(before.0, colliders) && MoversReady(before.0, [m])
    requires Untouched(w, init, before.0)
    requires r == if before.1 != Done then before else MoveOne(before.0, colliders, m, dt, coefficient, normalize)
    ensures Untouched(w, init + [m], r.0)
  {
    StableCarries(w, before.0, m, StaticKind);
    MoveOneEffect(before.0, colliders, m, dt, coefficient, normalize);
  }

  /** Every non-Static mover that has a Physics has no acceleration left. */
  predicate Settled(w: World, movers: seq<Entity>) {
    forall i :: 0 <= i < |movers| && movers[i] in w && !Carries(w[movers[i]], StaticKind) ==>
      AccelerationOf(w[movers[i]]) == Some(Zero)
  }

  /** Once the mover loop completes, every non-Static mover has been moved and
      its acceleration cleared. */
  lemma {:induction false} MoveAllSettles(w: World, colliders: seq<Entity>, movers: seq<Entity>, dt: real,
                                          coefficient: real, normalize: Vec -> Vec)
    requires CollidersReady(w, colliders) && MoversReady(w, movers)
    ensures var r := MoveAll(w, colliders, movers, dt, coefficient, normalize);
            r.1 == Done ==> Settled(r.0, movers)
  {
    if movers != [] {
      var n := |movers| - 1;
      var init, m := movers[..n], movers[n];
      MoversReadyPrefix(w, movers, n);
      MoveAllSettles(w, colliders, init, dt, coefficient, normalize);
      MoveAllUnfold(w, colliders, movers, dt, coefficient, normalize);
      SplitLast(movers);
      SettledStep(colliders, MoveAll(w, colliders, init, dt, coefficient, normalize), init, m,
                  MoveAll(w, colliders, movers, dt, coefficient, normalize), dt, coefficient, normalize);
    }
  }

  /** One step of `MoveAllSettles`. */
  lemma SettledStep(colliders: seq<Entity>, before: (World, Outcome), init: seq<Entity>, m: Entity,
                    r: (World, Outcome), dt: real, coefficient: real, normalize: Vec -> Vec)
    requires CollidersReady(before.0, colliders) && MoversReady(before.0, [m])
    requires before.1 == Done ==> Settled(before.0, init)
    requires r == if before.1 != Done then before else MoveOne(before.0, colliders, m, dt, coefficient, normalize)
    ensures r.1 == Done ==> Settled(r.0, init + [m])
  {
    if r.1 == Done {
      MoveOneEffect(before.0, colliders, m, dt, coefficient, normalize);
      forall i | 0 <= i < |init + [m]| && (init + [m])[i] in r.0 && !Carries(r.0[(init + [m])[i]], StaticKind)
        ensures AccelerationOf(r.0[(init + [m])[i]]) == Some(Zero)
      {
        if (init + [m])[i] != m {
          assert (init + [m])[i] == init[i];
        }
      }
    }
  }

  /** `Update` on the world: refresh every collider, then run the mover loop
      against the refreshed collider list. */
  function UpdateSpec(w: World, colliders: seq<Entity>, movers: seq<Entity>, dt: real, coefficient: real,
                      normalize: Vec -> Vec): (World, Outcome)
    requires forall i :: 0 <= i < |colliders| ==> colliders[i] in w
    requires MoversReady(w, movers)
  {
    var refreshed := RefreshAll(w, colliders);
    if refreshed.1 != Done then refreshed
    else
      RefreshAllLocated(w, colliders);
      StableKeepsReady(w, refreshed.0, colliders, movers);
      MoveAll(refreshed.0, colliders, movers, dt, coefficient, normalize)
  }

  /** Once every collider is refreshed, `Update` is the mover loop over the
      refreshed world, whose colliders and movers are still ready. */
  lemma UpdateSpecRefreshed(w: World, colliders: seq<Entity>, movers: seq<Entity>, dt: real, coefficient: real,
                            normalize: Vec -> Vec, refreshed: World)
    requires forall i :: 0 <= i < |colliders| ==> colliders[i] in w
    requires MoversReady(w, movers)
    requires RefreshAll(w, colliders) == (refreshed, Done)
    ensures CollidersReady(refreshed, colliders) && MoversReady(refreshed, movers)
    ensures UpdateSpec(w, colliders, movers, dt, coefficient, normalize) ==
              MoveAll(refreshed, colliders, movers, dt, coefficient, normalize)
  {
    RefreshAllLocated(w, colliders);
    StableKeepsReady(w, refreshed, colliders, movers);
  }
}
