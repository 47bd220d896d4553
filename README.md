# Basic-ECS core in Dafny

This project models the core of Basic-ECS, a small entity-component-system for a
MonoGame-style 2D game. It has four parts:

- **Entities** (`Ecs`, entity.dfy) are objects holding an ordered list of components.
  - A component is a Position, a Physics body, a Collider, a Name or a Static marker.
  - `GetComponent`, `TryGetComponent` and `HasComponent` find the first component of a kind.
  - `AddComponent` appends a component.
  - `RemoveComponent` drops the first component of a kind.
- **The entity map** (`EntityMaps`, entity_map.dfy) is the archetype index.
  - It keeps the registered entities in insertion order.
  - For every component kind it has seen, it keeps the set of entities listed under that kind.
  - `GetEntitiesWithComponents` answers a query by intersecting those sets.
  - The class `EntityMap` changes its two fields in place. Every method is proved against a value-level specification function on `MapState`.
  - The index invariant is `Consistent`: no entity is registered twice, and an entity is listed under a kind exactly when it is registered and carries that kind. Lemmas show which operations keep this invariant and which break it.
- **The physics system** (`PhysicsRules`, `PhysicsWorld`, `PhysicsSystems`; physics_rules.dfy, physics_world.dfy and physics_system.dfy) works in two stages.
  - First, `Update` moves every collider's rectangle to its rounded position plus offset.
  - Then, for every non-Static entity with a Position and a Physics, it does the following:
    - integrates acceleration over mass and quadratic drag into the velocity;
    - stops a body slower than a tenth;
    - moves the body along X and then along Y. A continuous collider steps one unit of `sign(v) * dt` at a time; any other collider moves `v * dt` in one jump.
    - After each step, it scans the collider list. A rectangle on the same layer that overlaps makes the body snap back to its last valid position on that axis, zeroes that axis's velocity and records the collision.
    - Finally, it clears the acceleration.
  - The class `PhysicsSystem` changes the entities' component lists in place.
    - Each of its methods is proved equal to a value-level function: `Refreshed`, `Check`, `Walk`, `Pass`, `Move` and `UpdateBody` for one body; `RefreshAll`, `MoveAll` and `UpdateSpec` for the world. The world is the map from each entity to its components.
    - The properties are proved about those functions. Examples: one pass changes only its own axis; the mover loop leaves Static entities and non-movers alone and clears every mover's acceleration; a continuous runner stops at a wall that a single jump passes through.
- **The extension methods** (`ExtensionMethods`, extension_methods.dfy) convert vectors and integer points. `Point.FromVector` rounds to the nearest integer, with ties going to the even neighbour.

Floats are modelled as `real`, and rectangle and point coordinates as `int`. `Vector2.Normalize`
needs a square root, so it is a parameter of the drag step (`normalize`). The
stop test `Length() < 0.1` is stated on the squared length, and `ShouldStopIsSpeedBelowTenth`
proves that the two forms agree.

The model follows the code where it differs from the documented behaviour:

- `MathF.Round` rounds an exact half to the even neighbour, not away from zero (`Geometry.RoundTiesToEven`).
- When no collision happens, the last valid position stores the raw, unrounded coordinate.
- A body with zero velocity on an axis that meets an obstacle snaps to the ceiling of its last valid position, not the floor. The code picks the floor only for a positive sign.

## Model

The table lists the members whose contracts state something. Functions that only define what a method computes (`Query`, `RemoveSpec`, `Replay`, `Move`, `UpdateSpec`, `Accelerated`, `Dragged`, `RefreshedComponents`, `WithBody`, `EntityMap.Enumerate`) are defined by their bodies. Their properties are stated by the lemmas and methods in the rows below that name them.

| member | source | states |
|---|---|---|
| Geometry.Round | ExtensionMethods.cs:15-16 | `MathF.Round` gives an integer within one half of the input, and an even one at a tie |
| Geometry.RoundNearest | ExtensionMethods.cs:15-16 | no integer is strictly closer to the input than the rounded value |
| Geometry.RoundTiesToEven | ExtensionMethods.cs:15-16 | 0.5 and -0.5 round to 0, 1.5 and 2.5 to 2, -2.5 to -2 |
| Geometry.Floor | ECS/Core/Systems/PhysicsSystem.cs:146-147 | the greatest integer not above the input |
| Geometry.Ceiling | ECS/Core/Systems/PhysicsSystem.cs:146-147 | the least integer not below the input |
| Geometry.Sign | ECS/Core/Systems/PhysicsSystem.cs:102 | 1, -1 or 0 exactly for a positive, negative or zero input |
| ExtensionMethods.FromVector | ExtensionMethods.cs:11-18 | each coordinate of the returned point is within one half of the vector's, even at a tie |
| ExtensionMethods.FromVectorIgnoresPoint | ExtensionMethods.cs:11-18 | the receiving point's own coordinates never reach the result |
| ExtensionMethods.FromVectorNearest | ExtensionMethods.cs:11-18 | each coordinate of the result is a nearest integer to the vector's |
| ExtensionMethods.FromPoint | ExtensionMethods.cs:6-10 | as written, the caller's vector is unchanged: the writes land on a by-value copy |
| ExtensionMethods.FromPointLosesWrite | ExtensionMethods.cs:6-10 | converting point (1, 2) leaves the caller with the zero vector, not (1, 2) |
| ExtensionMethods.PointToVector | ExtensionMethods.cs:6-10 | the intended conversion: the vector takes exactly the point's coordinates |
| ExtensionMethods.PointToVectorRoundTrip | ExtensionMethods.cs:6-18 | `FromVector` undoes the intended `FromPoint`, whatever point it writes into |
| Ecs.NewPosition | ECS/Core/Components/Position.cs:8-12 | a new Position sits at the origin |
| Ecs.NewPhysics | ECS/Core/Components/Physics.cs:8-15 | a new Physics has zero velocity and acceleration and unit drag scales and mass |
| Ecs.NewCollider | ECS/Core/Components/Collider.cs:9-37 | a new Collider is non-continuous, on layer 1, with an empty rectangle, no offset and no collision |
| Ecs.NewComponent | ECS/Entity.cs:44 | `new T()` gives a component of the requested kind |
| Ecs.IndexOfKind | ECS/Entity.cs:69 | the position of a component of the kind, in range exactly when the entity carries the kind |
| Ecs.IndexOfKindFirst | ECS/Entity.cs:69 | no component before that position has the kind: `OfType<T>().FirstOrDefault()` takes the first |
| Ecs.RemoveFirstOfKind | ECS/Entity.cs:55-57 | `List.Remove` of the found component cuts out exactly the first component of the kind |
| Ecs.CarriesAfterRemoval | ECS/Entity.cs:53-60 | after the removal the entity still carries the kind exactly when a second component of it followed |
| Lists.RemoveFirstCutsFirst | ECS/EntityMap.cs:71 | `List.Remove` cuts out the first occurrence and keeps the rest in order; without one it changes nothing |
| Lists.RemoveFirstNoDups | ECS/EntityMap.cs:71 | on a duplicate-free list, removal keeps it duplicate-free and drops exactly the removed element |
| Ecs.Entity.constructor | ECS/Entity.cs:14 | a new entity has no components |
| Ecs.Entity.AddComponent | ECS/Entity.cs:32-35 | appends exactly the given component and tells no one |
| Ecs.Entity.AddNewComponent | ECS/Entity.cs:42-47 | appends a new component of the kind and returns it |
| Ecs.Entity.RemoveComponent | ECS/Entity.cs:53-60 | with a component of the kind, removes the first one and signals; otherwise changes nothing and does not signal |
| Ecs.Entity.GetComponent | ECS/Entity.cs:67-70 | some component exactly when the kind is carried, and then the first one of that kind |
| Ecs.Entity.TryGetComponent | ECS/Entity.cs:78-82 | reports presence of the kind and yields the same component as `GetComponent` |
| Ecs.Entity.HasComponent | ECS/Entity.cs:88-91 | true exactly when the entity carries the kind |
| Ecs.Entity.HasComponentOfType | ECS/Entity.cs:97-100 | the exact-type test agrees with `HasComponent` |
| EntityMaps.AddSpec | ECS/EntityMap.cs:48-63 | a registered entity changes nothing; otherwise it is appended and listed under each of its kinds, a set is created for exactly those of its kinds that had none, and no other entity gains or loses a listing |
| EntityMaps.AddTwiceIsAddOnce | ECS/EntityMap.cs:50 | adding the same entity twice is adding it once, and the entity list stays duplicate-free |
| EntityMaps.FirstUnindexed | ECS/EntityMap.cs:72-75 | the first of the entity's kinds that has no set: the place where the removal loop throws |
| EntityMaps.ComponentAddedSpec | ECS/EntityMap.cs:84-92 | as written: a known kind gains the entity; an unknown kind is stored with an empty set, the call throws, and the entity stays unlisted under it; no other listing changes |
| EntityMaps.ComponentAddedIntended | ECS/EntityMap.cs:84-92 | intended: the entity is listed under the kind, whose set is created when new; no other kind gains a set and no other listing changes |
| EntityMaps.ComponentRemovedSpec | ECS/EntityMap.cs:99-105 | the entity is no longer listed under the kind, and every other listing and the entity list are kept |
| EntityMaps.AddPreservesConsistency | ECS/EntityMap.cs:48-63 | adding a new entity keeps the index consistent, with the entity carrying its kinds |
| EntityMaps.RemovePreservesConsistency | ECS/EntityMap.cs:68-76 | on a consistent index, removal never throws and leaves the index consistent without the entity |
| EntityMaps.RemoveThrowsAfterUnnotifiedAppend | ECS/EntityMap.cs:72-75 | a component of a never-seen kind added behind the map's back makes removal throw, after the entity has left the list and every set |
| EntityMaps.QueryOnConsistentIndex | ECS/EntityMap.cs:113-125 | on a consistent index a query returns exactly the registered entities that carry every requested kind |
| EntityMaps.QueryPairIsIntersection | ECS/EntityMap.cs:117-123 | a two-kind query is the intersection of the two one-kind queries |
| EntityMaps.QuerySingle | ECS/EntityMap.cs:115-117 | a one-kind query is that kind's set, or empty when the kind has none |
| EntityMaps.QueryAfterRemove | ECS/EntityMap.cs:113-125 | a removed entity is in no query's result |
| EntityMaps.AttachIntendedPreservesConsistency | ECS/EntityMap.cs:84-92 | the intended notification keeps the index consistent with the entity's new kind |
| EntityMaps.AttachAsWrittenBreaksConsistency | ECS/EntityMap.cs:87-91 | as written, notifying a never-seen kind throws and leaves the index inconsistent |
| EntityMaps.DetachNotified | ECS/EntityMap.cs:99-105 | after a removal notification the index stays consistent exactly when the entity no longer carries that kind |
| EntityMaps.ReplayEnumeration | ECS/EntityMap.cs:22-28 | adding a sequence of entities registers each non-null one once, in order of first appearance |
| EntityMaps.AddKeepsSynced | ECS/EntityMap.cs:48-63 | adding keeps the index in step with what every registered entity carries |
| EntityMaps.RemoveKeepsSynced | ECS/EntityMap.cs:68-76 | removal keeps the index in step and never throws on an index in step |
| EntityMaps.EntityMap.constructor | ECS/EntityMap.cs:17-20 | a new map is empty and consistent |
| EntityMaps.EntityMap.FromEntities | ECS/EntityMap.cs:22-28 | the map built from a sequence is the replay of `AddNewEntity` over it, and is consistent |
| EntityMaps.EntityMap.Reset | ECS/EntityMap.cs:34-42 | the map is cleared and replays the sequence; the index is consistent |
| EntityMaps.EntityMap.AddNewEntity | ECS/EntityMap.cs:48-63 | null changes nothing; otherwise the new state is `AddSpec`, and consistency is kept |
| EntityMaps.EntityMap.Index | ECS/EntityMap.cs:52-62 | the loop lists the entity under each kind it carries, creating missing sets |
| EntityMaps.EntityMap.RemoveEntity | ECS/EntityMap.cs:68-76 | the new state and the exception are `RemoveSpec`'s; on a consistent map it does not throw and stays consistent |
| EntityMaps.EntityMap.Unindex | ECS/EntityMap.cs:72-75 | the loop unlists the entity kind by kind and throws at the first kind without a set |
| EntityMaps.EntityMap.ComponentAdded | ECS/EntityMap.cs:84-92 | the new state and the exception are `ComponentAddedSpec`'s; null changes nothing |
| EntityMaps.EntityMap.ComponentRemoved | ECS/EntityMap.cs:99-105 | the new state is `ComponentRemovedSpec`'s |
| EntityMaps.EntityMap.GetEntitiesWithComponents | ECS/EntityMap.cs:113-125 | the copy-and-intersect loop returns `Query`: an index error for no kinds, empty for a kind without a set, else the intersection |
| PhysicsRules.Refreshed | ECS/Core/Systems/PhysicsSystem.cs:155-160 | only the rectangle changes: it keeps its size, and its corner is `MathF.Round` (ties to even) of position plus offset on each axis |
| PhysicsRules.RefreshedIdempotent | ECS/Core/Systems/PhysicsSystem.cs:155-160 | moving a collider twice from the same position is moving it once |
| PhysicsRules.RefreshedForgetsCorner | ECS/Core/Systems/PhysicsSystem.cs:159 | the new rectangle does not depend on the old one's corner |
| PhysicsRules.FirstBlocker | ECS/Core/Systems/PhysicsSystem.cs:120-130 | the scan stops at the first entry that is another entity on the mover's layer with an overlapping rectangle |
| PhysicsRules.FirstBlockerIgnoresSelf | ECS/Core/Systems/PhysicsSystem.cs:122 | the mover's own entry never affects where the scan stops |
| PhysicsRules.Collide | ECS/Core/Systems/PhysicsSystem.cs:144-153 | the moving-axis coordinate becomes exactly the floor of the last valid position for a positive sign and its ceiling otherwise; that axis's velocity is zeroed and the obstacle recorded; nothing else changes |
| PhysicsRules.Check | ECS/Core/Systems/PhysicsSystem.cs:117-142 | collides exactly when the scan finds a blocker, and then responds to that blocker; otherwise only this axis of the last valid position changes, to the current coordinate |
| PhysicsRules.Rounds | ECS/Core/Systems/PhysicsSystem.cs:100 | the continuous loop runs the least whole number of rounds not below the axis speed |
| PhysicsRules.Walk | ECS/Core/Systems/PhysicsSystem.cs:98-106 | rounds of the continuous loop without a collision leave the physics untouched; a colliding round zeroes the axis velocity and sets `colliding` |
| PhysicsRules.Pass | ECS/Core/Systems/PhysicsSystem.cs:95-115 | a pass without a collision leaves the physics untouched; a colliding pass zeroes the axis velocity and sets `colliding` |
| PhysicsRules.WalkDisplacement | ECS/Core/Systems/PhysicsSystem.cs:100-106 | without a collision, `k` rounds move the body `k` steps of `sign(v) * dt` along the axis, and the last valid position follows it |
| PhysicsRules.PassDisplacement | ECS/Core/Systems/PhysicsSystem.cs:95-115 | without a collision, a pass moves the body by `v * dt` in one jump, or by `Rounds(v)` whole steps of `sign(v) * dt` for a continuous collider; a jump collides exactly when the scan at its end finds a blocker |
| PhysicsRules.ContinuousOvershoots | ECS/Core/Systems/PhysicsSystem.cs:100-102 | at speed 2.5 the continuous loop takes three whole steps, covering 3 units where a jump covers 2.5 |
| PhysicsRules.StepAlongAxis | ECS/Core/Systems/PhysicsSystem.cs:102-106 | one step along the axis that finds no blocker advances the body by exactly that step and records the new position as the last valid one on that axis |
| PhysicsRules.StepsIsProduct | ECS/Core/Systems/PhysicsSystem.cs:100-102 | `k` steps of the same length cover `k` times that length |
| PhysicsRules.WalkStops | ECS/Core/Systems/PhysicsSystem.cs:104-105 | once a round collides, later rounds change nothing |
| PhysicsRules.WalkKeeps | ECS/Core/Systems/PhysicsSystem.cs:98-106 | the walk keeps the other axis and the collider settings, and sets `colliding` exactly when it collides |
| PhysicsRules.PassKeeps | ECS/Core/Systems/PhysicsSystem.cs:95-115 | a pass on one axis never changes the other axis, mass, drag scales or collider settings, and reports its collision in `colliding` |
| PhysicsRules.MoveKeeps | ECS/Core/Systems/PhysicsSystem.cs:82-93 | moving changes no physics field but the velocity, and no collider setting |
| PhysicsRules.MoveReportsCollision | ECS/Core/Systems/PhysicsSystem.cs:88-92 | after a move, `colliding` is true exactly when either pass collided; without a collision `collidingWith` is kept |
| PhysicsRules.ContinuousAtRest | ECS/Core/Systems/PhysicsSystem.cs:98-106 | a continuous collider at rest on the axis takes no step and changes nothing |
| PhysicsRules.ScanSkipsSelf | ECS/Core/Systems/PhysicsSystem.cs:122 | a collider list holding only the mover never blocks it |
| PhysicsRules.ShouldStopIsSpeedBelowTenth | ECS/Core/Systems/PhysicsSystem.cs:77-80 | the squared-length test agrees with `Length() < 0.1` |
| PhysicsRules.Integrated | ECS/Core/Systems/PhysicsSystem.cs:50-56 | acceleration, drag and the stop clamp change only the velocity, which is zero when the dragged speed is below a tenth |
| PhysicsRules.NoAccelerationKeepsVelocity | ECS/Core/Systems/PhysicsSystem.cs:63-67 | with no acceleration, `ApplyAcceleration` keeps the velocity |
| PhysicsRules.DragAtRest | ECS/Core/Systems/PhysicsSystem.cs:69-75 | drag on a body at rest is zero, whatever the normalization returns |
| PhysicsRules.CoastingKeepsVelocity | ECS/Core/Systems/PhysicsSystem.cs:50-56 | with no acceleration, no drag and a speed of at least a tenth, the velocity is carried over |
| PhysicsRules.RestStaysAtRest | ECS/Core/Systems/PhysicsSystem.cs:50-56 | a body at rest with no acceleration stays at rest |
| PhysicsRules.UpdateBody | ECS/Core/Systems/PhysicsSystem.cs:45-61 | after the update the acceleration is zero; mass and drag scales are kept |
| PhysicsRules.RunnerRound | ECS/Core/Systems/PhysicsSystem.cs:100-105 | one continuous step toward a unit wall collides exactly when it reaches the wall on the same layer, and then it snaps back and stops |
| PhysicsRules.RunnerWalk | ECS/Core/Systems/PhysicsSystem.cs:98-106 | the continuous runner advances one unit per round while clear of the wall |
| PhysicsRules.ContinuousStopsAtWall | ECS/Core/Systems/PhysicsSystem.cs:95-115 | moving at speed 5 toward a wall at x = 3, a continuous collider stops at x = 2 with zero velocity and the wall recorded |
| PhysicsRules.OtherLayerDoesNotBlock | ECS/Core/Systems/PhysicsSystem.cs:124 | the same wall on another layer does not block: the runner reaches x = 5 and reports no collision |
| PhysicsRules.SingleStepPassesThrough | ECS/Core/Systems/PhysicsSystem.cs:108-113 | without continuous mode the runner jumps to x = 5 through the wall, with no collision |
| PhysicsWorld.WithBodySlots | ECS/Core/Systems/PhysicsSystem.cs:84-88 | the pass writes only the first Position, Physics and Collider, and every other component keeps its place |
| PhysicsWorld.WithBodyRoundTrip | ECS/Core/Systems/PhysicsSystem.cs:84-88 | reading back the written components gives the body written |
| PhysicsWorld.RefreshedComponentsFacts | ECS/Core/Systems/PhysicsSystem.cs:166-168 | refreshing changes only the first Collider, into the refreshed collider, and keeps every kind and the mass |
| PhysicsWorld.RefreshedComponentsIsRefresh | ECS/Core/Systems/PhysicsSystem.cs:155-160 | `MoveColliders`'s inline update equals `MoveCollider` on the body |
| PhysicsWorld.RefreshedComponentsIdempotent | ECS/Core/Systems/PhysicsSystem.cs:161-170 | refreshing a collider's components twice is refreshing them once |
| PhysicsWorld.ObstaclesIn | ECS/Core/Systems/PhysicsSystem.cs:120-124 | the scan reads each collider entry's entity, layer and rectangle, in list order |
| PhysicsWorld.RefreshOne | ECS/Core/Systems/PhysicsSystem.cs:166-168 | one collider refresh succeeds exactly when the entity has a Position and a Collider, and otherwise throws with nothing changed |
| PhysicsWorld.RefreshAll | ECS/Core/Systems/PhysicsSystem.cs:161-170 | the collider loop keeps every entity's kinds and mass |
| PhysicsWorld.RefreshAllOutcome | ECS/Core/Systems/PhysicsSystem.cs:161-170 | the collider loop completes exactly when every collider has a Position and a Collider, and otherwise throws a null reference |
| PhysicsWorld.RefreshAllLocated | ECS/Core/Systems/PhysicsSystem.cs:161-170 | after a completed refresh every collider still has a Position and a Collider |
| PhysicsWorld.RefreshAllEffect | ECS/Core/Systems/PhysicsSystem.cs:161-170 | a completed refresh has moved every listed collider exactly once and changed no other entity |
| PhysicsWorld.RefreshAllFaultSticks | ECS/Core/Systems/PhysicsSystem.cs:163-169 | after the collider loop throws, later entries are not visited |
| PhysicsWorld.MoveOne | ECS/Core/Systems/PhysicsSystem.cs:37-41 | one mover iteration keeps every entity's kinds and mass |
| PhysicsWorld.MoveOneEffect | ECS/Core/Systems/PhysicsSystem.cs:37-41 | a Static mover is skipped; a mover without a Collider throws with nothing changed; any other is updated with no acceleration left; no other entity changes |
| PhysicsWorld.MoveAll | ECS/Core/Systems/PhysicsSystem.cs:35-42 | the mover loop keeps every entity's kinds and mass |
| PhysicsWorld.MoveAllOutcome | ECS/Core/Systems/PhysicsSystem.cs:35-42 | the mover loop completes exactly when every mover is Static or has a Collider, and otherwise throws a null reference |
| PhysicsWorld.MoveAllFaultSticks | ECS/Core/Systems/PhysicsSystem.cs:35-42 | after the mover loop throws, later movers are not visited |
| PhysicsWorld.MoveAllUntouched | ECS/Core/Systems/PhysicsSystem.cs:35-42 | the mover loop never changes a Static entity or an entity that is not a mover |
| PhysicsWorld.MoveAllSettles | ECS/Core/Systems/PhysicsSystem.cs:35-42 | when the mover loop completes, every non-Static mover has no acceleration left |
| PhysicsWorld.UpdateSpecRefreshed | ECS/Core/Systems/PhysicsSystem.cs:21-43 | once the colliders are refreshed, `Update` is the mover loop over the refreshed world, which is still ready |
| PhysicsSystems.PhysicsSystem.constructor | ECS/Core/Systems/PhysicsSystem.cs:17 | the drag coefficient starts at 0.1 |
| PhysicsSystems.PhysicsSystem.MoveCollider | ECS/Core/Systems/PhysicsSystem.cs:155-160 | with a Position and a Collider, the entity's components are refreshed; otherwise it throws and nothing changes |
| PhysicsSystems.PhysicsSystem.MoveColliders | ECS/Core/Systems/PhysicsSystem.cs:161-170 | the entities' new components and the exception are `RefreshAll` of the old ones |
| PhysicsSystems.PhysicsSystem.CollisionAxis | ECS/Core/Systems/PhysicsSystem.cs:117-142 | the scan loop's body and collision flag are `Check` of the collider list as read |
| PhysicsSystems.PhysicsSystem.MoveAxis | ECS/Core/Systems/PhysicsSystem.cs:95-115 | the body after the axis pass is `Pass`'s |
| PhysicsSystems.PhysicsSystem.WalkAxis | ECS/Core/Systems/PhysicsSystem.cs:98-107 | the continuous loop ends in the body `Walk` gives after all its rounds, stopping early at a collision |
| PhysicsSystems.PhysicsSystem.MoveEntity | ECS/Core/Systems/PhysicsSystem.cs:82-93 | the body after both passes is `Move`'s |
| PhysicsSystems.PhysicsSystem.UpdateEntityPhysics | ECS/Core/Systems/PhysicsSystem.cs:45-61 | the entity's first Position, Physics and Collider become `UpdateBody`'s, and every other component is kept |
| PhysicsSystems.PhysicsSystem.Update | ECS/Core/Systems/PhysicsSystem.cs:21-43 | the components of every collider and mover and the exception are `UpdateSpec` of the old ones |
| PhysicsSystems.PhysicsSystem.CopyColliders | ECS/Core/Systems/PhysicsSystem.cs:25-33 | the copied collider list holds the same entities in the same order |
| PhysicsSystems.PhysicsSystem.MoveAgainst | ECS/Core/Systems/PhysicsSystem.cs:25-42 | after the refresh, the copy, the movers' query (which returns exactly the `movers` entities) and the mover loop leave the world and the exception as `MoveAll` gives them |
| PhysicsSystems.PhysicsSystem.MoveMovers | ECS/Core/Systems/PhysicsSystem.cs:35-42 | the movers' new components and the exception are `MoveAll` of the old world |

## Left out

- Events are left out. The subscribers of `Entity.ComponentAdded`/`ComponentRemoved` (the scene, per the comments at ECS/Entity.cs:19 and 24) are not part of this model. The model leaves it to the caller to notify the map through `EntityMap.ComponentAdded`/`ComponentRemoved`.
- Ecs.Entity.RemoveComponent: returns whether it raises the removal signal instead of invoking the event. When nothing has subscribed, the invocation at ECS/Entity.cs:58 throws a NullReferenceException after the removal; the model does not show that exception.
- Hash-set order. Query results are sets. `Update` takes the two query results as duplicate-free sequences, in whatever order the hash sets enumerate them.
- PhysicsSystems.PhysicsSystem.Update: requires that every mover carries a Position and a Physics, and that every mover that is not Static has a non-zero mass. A Static mover is skipped before its mass is read, so its mass is not constrained. This excludes two things:
  - stale-index paths, where an entity is listed under a kind it no longer carries and the C# throws on a null component;
  - IEEE division by zero mass, which gives infinities or NaN.
- Floating point. `float` is modelled as `real`, with exact arithmetic and no rounding of intermediate results. The float-to-int cast after `MathF.Round` is taken to be exact. `Travel` is the exact product `v * dt`.
- `Vector2.Normalize` is the parameter `normalize` of the drag step. `Length()` appears only through `ShouldStopIsSpeedBelowTenth`.
- `Rectangle.Intersects` is taken as the half-open overlap test on both axes, which is the game library's definition. The library itself is not part of this model.
- Component aliasing. Components are values, so one component object shared by two entities is not modelled. During its pass, the mover's Position, Physics and Collider are held as a local body and written back at the end. The scan never reads the mover's own entry (`FirstBlockerIgnoresSelf`), so this does not change what the pass sees.
- Dead locals in `Update` are left out: the unused `collider`, `isStatic` and `bounds` reads in the copy loop, and `bounds` in the mover loop. `Update` (and `MoveAgainst` for the second query) still runs both queries and asserts that they return exactly the entities of the `colliders` and `movers` lists it loops over. A missing Collider in the mover loop is still modelled as the null-reference exception that the read at ECS/Core/Systems/PhysicsSystem.cs:39 throws.
- JSON serialization attributes and the `$entity` type discriminator are left out.
- ECS/System.cs and ECS/Component.cs are not part of this model, beyond `RequiredComponents` being Position and Physics.
- Component kinds form a closed set: Position, Physics, Collider, Name and Static. `HasComponent(Type)` with an exact-type test therefore agrees with `HasComponent<T>()`; subclassing of component types is not modelled.
- Null components are left out: a component is always one of the five kinds. In C#, `AddComponent(null)` appends null; `AddNewEntity` and `HasComponent(Type)` then throw on `GetType()`, and `GetComponent<T>` skips the null entry.
- `EntityMap.GetEnumerator` is the `entities` sequence (`EntityMap.Enumerate`). Its order is stated through `ReplayEnumeration`.

## Findings

| source | as written | input that shows it | evidently intended | confidence | as-written member | corrected member |
|---|---|---|---|---|---|---|
| ExtensionMethods.cs:6-10 | `FromPoint` writes the point's coordinates into its `this Vector2` parameter, which is a by-value copy of the caller's struct | calling it on `Vector2.Zero` with point (1, 2) leaves the caller's vector at (0, 0) | the caller's vector takes the point's coordinates | high; not executed | ExtensionMethods.FromPointLosesWrite | ExtensionMethods.PointToVectorRoundTrip |
| ECS/EntityMap.cs:87-91 | when the kind has no set, a new empty set is stored but the local `componentSet` stays null, and `componentSet.Add(entity)` throws | `ComponentAdded(e, Collider)` on a map that has never seen a Collider throws NullReferenceException and leaves `e` unlisted under Collider | the entity is added to the newly created set | high; not executed | EntityMaps.AttachAsWrittenBreaksConsistency | EntityMaps.AttachIntendedPreservesConsistency |
