/** Entities and their components. A component is a value of one of a closed set
    of kinds; an entity is an object holding an ordered list of components, which
    its methods (and the physics system) update in place. */
module Ecs {
  import opened Geometry
  import opened Wrappers
  import opened Lists

  /** The component kinds. `Name` and `Static` carry no data the core reads. */
  datatype Kind = PositionKind | PhysicsKind | ColliderKind | NameKind | StaticKind

  /** World position of an entity. */
  datatype Position = Position(position: Vec)

  /** Physics body: motion state, drag scales and mass. */
  datatype Physics = Physics(velocity: Vec, acceleration: Vec, dragScale: real,
                             xDragScale: real, yDragScale: real, mass: real)

  /** Collider: `collider` is the world-space rectangle, `collidingWith` a
      non-owning reference to the entity last collided with. */
  datatype Collider = Collider(lastValidPos: Vec, continuous: bool, offset: Vec, collider: Box,
                               collidingWith: Entity?, colliding: bool, collisionLayer: int)

  datatype Component =
    | Pos(pos: Position)
    | Phys(phys: Physics)
    | Col(col: Collider)
    | NameTag
    | StaticTag

  function KindOf(c: Component): Kind {
    match c
    case Pos(_) => PositionKind
    case Phys(_) => PhysicsKind
    case Col(_) => ColliderKind
    case NameTag => NameKind
    case StaticTag => StaticKind
  }

  /** A freshly constructed `Position`. */
  function NewPosition(): (p: Position)
    ensures p.position == Zero
  {
    Position(Zero)
  }

  /** A freshly constructed `Physics`. */
  function NewPhysics(): (p: Physics)
    ensures p.velocity == Zero && p.acceleration == Zero
    ensures p.dragScale == 1.0 && p.xDragScale == 1.0 && p.yDragScale == 1.0 && p.mass == 1.0
  {
    Physics(Zero, Zero, 1.0, 1.0, 1.0, 1.0)
  }

  /** A freshly constructed `Collider`. */
  function NewCollider(): (c: Collider)
    ensures c.lastValidPos == Zero && !c.continuous && c.offset == Zero && c.collider == EmptyBox
    ensures c.collidingWith == null && !c.colliding && c.collisionLayer == 1
  {
    Collider(Zero, false, Zero, EmptyBox, null, false, 1)
  }

  /** A freshly constructed component of kind `k`. */
  function NewComponent(k: Kind): (c: Component)
    ensures KindOf(c) == k
  {
    match k
    case PositionKind => Pos(NewPosition())
    case PhysicsKind => Phys(NewPhysics())
    case ColliderKind => Col(NewCollider())
    case NameKind => NameTag
    case StaticKind => StaticTag
  }

  /** Some component in `cs` is of kind `k`. */
  predicate Carries(cs: seq<Component>, k: Kind) {
    exists i :: 0 <= i < |cs| && KindOf(cs[i]) == k
  }

  /** Index of the first component of kind `k`, or `|cs|` when there is none. */
  function IndexOfKind(cs: seq<Component>, k: Kind): (i: nat)
    ensures i <= |cs|
    ensures i < |cs| <==> Carries(cs, k)
    ensures i < |cs| ==> KindOf(cs[i]) == k
  {
    if cs == [] then 0
    else if KindOf(cs[0]) == k then 0
    else 1 + IndexOfKind(cs[1..], k)
  }

  /** No component before `IndexOfKind(cs, k)` has kind `k`: it is the first. */
  lemma {:induction false} IndexOfKindFirst(cs: seq<Component>, k: Kind)
    ensures forall j :: 0 <= j < IndexOfKind(cs, k) ==> KindOf(cs[j]) != k
  {
    if cs != [] && KindOf(cs[0]) != k {
      IndexOfKindFirst(cs[1..], k);
      assert forall j :: 1 <= j < IndexOfKind(cs, k) ==> cs[j] == cs[1..][j - 1];
    }
  }

  /** The kinds of `cs`, in list order. */
  function Kinds(cs: seq<Component>): (ks: seq<Kind>)
    ensures |ks| == |cs|
    ensures forall i :: 0 <= i < |cs| ==> ks[i] == KindOf(cs[i])
  {
    seq(|cs|, i requires 0 <= i < |cs| => KindOf(cs[i]))
  }

  /** Removing (by equality) the first component of kind `k` removes exactly
      that position: nothing before it is equal to it, since nothing before it
      has kind `k`. */
  lemma RemoveFirstOfKind(cs: seq<Component>, k: Kind)
    requires Carries(cs, k)
    ensures var i := IndexOfKind(cs, k);
            RemoveFirst(cs, cs[i]) == cs[..i] + cs[i + 1..]
  {
    var i := IndexOfKind(cs, k);
    assert IndexOf(cs, cs[i]) == i by {
      IndexOfFirst(cs, cs[i]);
      IndexOfKindFirst(cs, k);
      forall j | 0 <= j < i ensures cs[j] != cs[i] { assert KindOf(cs[j]) != KindOf(cs[i]); }
    }
    RemoveFirstCutsFirst(cs, cs[i]);
  }

  /** After the first component of kind `k` is dropped, the entity still carries
      `k` exactly when a second component of that kind follows the first. */
  lemma CarriesAfterRemoval(cs: seq<Component>, k: Kind)
    requires Carries(cs, k)
    ensures var i := IndexOfKind(cs, k);
            Carries(cs[..i] + cs[i + 1..], k) <==> exists j :: i < j < |cs| && KindOf(cs[j]) == k
  {
    var i := IndexOfKind(cs, k);
    CutPositions(cs, i);
    var rest := Cut(cs, i);
    IndexOfKindFirst(cs, k);
    if Carries(rest, k) {
      var j :| 0 <= j < |rest| && KindOf(rest[j]) == k;
      assert KindOf(cs[Skip(i, j)]) == k;
    }
    if j :| i < j < |cs| && KindOf(cs[j]) == k {
      assert Skip(i, j - 1) == j;
      assert KindOf(rest[j - 1]) == k;
    }
  }

  /** An entity: a container of components. */
  class Entity {
    var components: seq<Component>

    constructor()
      ensures components == []
    {
      components := [];
    }

    /** `AddComponent(component)`: appends exactly `c`. The map is not told. */
    method AddComponent(c: Component)
      modifies this
      ensures components == old(components) + [c]
    {
      components := components + [c];
    }

    /** `AddComponent<T>()`: appends a freshly constructed component of kind `k`
        and returns it. The map is not told. */
    method AddNewComponent(k: Kind) returns (c: Component)
      modifies this
      ensures c == NewComponent(k) && KindOf(c) == k
      ensures components == old(components) + [c]
    {
      c := NewComponent(k);
      components := components + [c];
    }

    /** `RemoveComponent<T>()`: when a component of kind `k` is present, removes
        the first one and raises the component-removed signal (`signalled`);
        otherwise changes nothing. */
    method RemoveComponent(k: Kind) returns (signalled: bool)
      modifies this
      ensures signalled == old(Carries(components, k))
      ensures signalled ==> var i := old(IndexOfKind(components, k));
                            components == old(components[..i] + components[i + 1..])
      ensures !signalled ==> components == old(components)
    {
      var found, component := TryGetComponent(k);
      if found {
        RemoveFirstOfKind(components, k);
        components := RemoveFirst(components, component.value);
        signalled := true;
      } else {
        signalled := false;
      }
    }

    /** `GetComponent<T>()`: the first component of kind `k` in list order, or
        none. */
    function GetComponent(k: Kind): (r: Option<Component>)
      reads this
      ensures r.Some? <==> Carries(components, k)
      ensures r.Some? ==> KindOf(r.value) == k &&
                          exists i :: 0 <= i < |components| && components[i] == r.value &&
                                      forall j :: 0 <= j < i ==> KindOf(components[j]) != k
    {
      var i := IndexOfKind(components, k);
      IndexOfKindFirst(components, k);
      if i < |components| then Some(components[i]) else None
    }

    /** `TryGetComponent<T>(out component)`: whether a component of kind `k` is
        present, and the same component `GetComponent` returns. */
    method TryGetComponent(k: Kind) returns (found: bool, component: Option<Component>)
      ensures found <==> Carries(components, k)
      ensures component == GetComponent(k)
    {
      component := GetComponent(k);
      found := component.Some?;
    }

    /** `HasComponent<T>()`: a first component of kind `k` exists. */
    function HasComponent(k: Kind): (b: bool)
      reads this
      ensures b <==> Carries(components, k)
    {
      GetComponent(k).Some?
    }

    /** `HasComponent(Type)`: some component's exact kind is `k`. With a closed
        set of kinds this agrees with `HasComponent`. */
    function HasComponentOfType(k: Kind): (b: bool)
      reads this
      ensures b <==> HasComponent(k)
    {
      exists c | c in components :: KindOf(c) == k
    }
  }
}
