# Robot manipulator: link registry and chain position resolver

This project models the core of a rigid-link robot manipulator. The manipulator
keeps a registry of movable links keyed by integer identifier. Each link has a
segment length `r`, an orientation (pitch, yaw, roll) and the identifier of the
link it hangs from; identifier 0 is the fixed base at the origin. The absolute
position of a link is computed in three steps:

- walk back through the previous-link identifiers to the base;
- reverse that walk into base-to-link order;
- add up the links' displacements.

The resolution rejects three kinds of configuration:

- an incomplete chain, where the walk meets an identifier that is not registered;
- link 1 with a pitch or yaw greater than π/2;
- a link, other than the first, whose end lies closer than 0.1 to the end of an
  earlier link of the chain.

Files and modules:

- `geometry.dfy` (`Geometry`): points `Vec3`, the squared distance and the
  minimum separation. It also holds the type `DispFn` of the abstract
  displacement function (length, pitch, yaw) ↦ (dx, dy, dz).
- `chains.dfy` (`Chains`): the `Link` record and the registry `map<int, Link>`.
  It defines the walk back, `Step`, which counts its steps and stays put at the
  base or at a missing identifier; trails (walks in walking order); chains (base
  to link); and `Reverse`. The lemmas say how walks, trails and chains relate.
- `kinematics.dfy` (`Kinematics`): positions as prefix sums of displacements
  (`Position`), the collision rule, the orientation rule for link 1, the
  `Outcome` of a resolution, and the predicates `Resolves`/`ResolvesFrom`. These
  say which outcome a resolution must give.
- `manipulator.dfy` (`Robot`): the class `Manipulator`. Its field `links` is the
  registry. Its operations are `AddLink`, `GetLink`, `SetDirection` and
  `CalculatePosition`; the last one is split into `WalkBack`, `Accumulate` and
  `CheckCollision`, which follow the loops of `calculatePosition` and `checkCollision`.

`calculatePosition` returns (0,0,0) both for a link that really sits at the origin and
for every rejection. The model returns a tagged `Outcome` instead: `Located(p)`,
`IncompleteChain(missing)`, `RootOrientationOutOfRange(pitch, yaw)`,
`CollisionDetected(link, at)` or `Diverges`. `Kinematics.SourceTuple` maps an
outcome back to the triple the C++ code returns, and
`Kinematics.SourceTupleOfLink` states what that triple is for a link.

The walk in `calculatePosition` has no guard against cycles among previous-link identifiers.
For a cycle such as 2 → 3 → 2 the walk never reaches the base or a missing
identifier. Because its body pushes onto `chain` (Manipulator.cpp:82) on every
pass, `chain` grows until allocation fails. The model's walk also stops when
it meets an identifier it has already recorded, and then returns `Diverges`.
`Diverges` is proved to happen exactly when the C++ walk never reaches the
base or a missing identifier (`Chains.CycleDiverges`, `Chains.TrailEndsAt`). It
is not a result of the C++ code; it marks the inputs on which its walk
never ends.

Trigonometry is abstract. A link's displacement is `disp(r, pitch, yaw)` for a
function `disp` given to the manipulator's constructor, and π/2 is the
constructor's `halfPi`. The test "distance < 0.1" becomes "squared distance <
0.01" over the reals (`Geometry.DistanceThreshold`).

Three behaviours of the code that are easy to miss:

- The comment at Manipulator.cpp:71 treats `pitch(id=1)<=pi/2` as the
  constraint on the link attached to the base, but line 107 tests
  `chain[i] == 1`. The orientation rule therefore applies to the link whose
  identifier is 1, wherever it sits in the chain, and not to the first link of
  the chain. The model does the same.
- `addLink` (Manipulator.cpp:16-22) does not reject identifier 0. A link with
  identifier 0 can be registered. Its chain is empty and its position is the
  origin.
- `calculatePosition` asserts at Manipulator.cpp:76 that the target is
  registered, but its walk handles an unregistered target anyway. The model
  has no such precondition. It covers the behaviour with assertions disabled:
  an unregistered non-zero target gives `IncompleteChain` naming the target,
  and target 0 gives the origin. `setDirection` asserts the same thing at
  Manipulator.cpp:36 and then dereferences the link. The model states that as
  a precondition.

## Model

| member | source | states |
|---|---|---|
| `Robot.Manipulator.AddLink` | Manipulator.cpp:16-23 | an identifier that is already registered leaves the map unchanged, so the first link is kept; a fresh identifier adds exactly that key mapped to the new link, and every other entry stays the same; the result tells which case happened |
| `Robot.Manipulator.GetLink` | Manipulator.cpp:26-32 | returns the stored link when the identifier is a key and nothing otherwise; reads the registry and changes nothing |
| `Robot.Manipulator.SetDirection` | Manipulator.cpp:35-38 | requires a registered identifier; replaces only that link's pitch, yaw and roll; the key set and every other link are unchanged |
| `Robot.Manipulator.WalkBack` | Manipulator.cpp:79-84 | the recorded identifiers are the walk back from the target in walking order: each is registered and not 0, each one's predecessor is the next, and the last one's predecessor is where the walk stopped; it stops at 0, at a missing identifier, or at an identifier already recorded |
| `Robot.Manipulator.CheckCollision` | Manipulator.cpp:140-180 | false exactly when the given point lies at squared distance below 0.01 from the end of one of the first `currentIndex` links of the chain, with each end position being the prefix sum of displacements from the base; the base itself is never compared; the inner loop's recomputed position equals that prefix sum |
| `Robot.Manipulator.Accumulate` | Manipulator.cpp:96-135 | the result is decided by the first link at which a rule fires: link 1 with pitch or yaw above π/2 gives `RootOrientationOutOfRange`, tested before that link's collision check; a later link too close to an earlier one gives `CollisionDetected` with that link and its position; the first link is never checked for collision; with no rejection the result is the sum of all displacements |
| `Robot.Manipulator.CalculatePosition` | Manipulator.cpp:75-136 | `Diverges` exactly when the walk back never reaches the base or a missing identifier; `IncompleteChain(m)` when the walk stops at a missing identifier `m` other than 0, with neither the orientation rule nor the collision rule consulted; otherwise the outcome is what `Accumulate` gives on the target's chain from the base; there is no precondition, so an unregistered target is covered as well |
| `Kinematics.UnregisteredTargetIncomplete` | Manipulator.cpp:79-90 | with the assertion at line 76 disabled, an unregistered target other than 0 resolves to an incomplete chain naming the target itself |
| `Kinematics.SourceTupleOfLink` | Manipulator.cpp:87-135 | the triple `calculatePosition` returns for a link whose walk ends: the sum of displacements along its chain when no rule fires on it, as at line 135, and (0,0,0) when the chain is incomplete or the orientation or collision rule fires, as at lines 89, 111 and 130 |
| `Chains.Reverse` | Manipulator.cpp:93 | the result has the same length and holds the elements in opposite order |
| `Chains.TrailSteps` | Manipulator.cpp:80-84 | entry k of a recorded walk is the identifier the loop holds after k iterations, and after all of them the loop holds the stopping identifier |
| `Chains.TrailEndsAt` | Manipulator.cpp:81-87 | a recorded walk that stops at 0 or at a missing identifier is a terminating walk that ends there |
| `Chains.EndsAtUnique` | Manipulator.cpp:81-84 | a walk back stops at no more than one identifier |
| `Chains.CycleDiverges` | Manipulator.cpp:81-84 | a walk that comes back to an identifier it has already recorded never reaches the base or a missing identifier, so the loop never ends |
| `Chains.ChainFromTrail` | Manipulator.cpp:92-93 | reversing a walk that ended at the base gives the chain to the target: the first link hangs off the base, each further link hangs off the one before it, and the last is the target |
| `Chains.TrailFromChain` | Manipulator.cpp:92-93 | reversing the chain to a link gives the walk back from it, ending at the base |
| `Chains.ChainReachesBase` | Manipulator.cpp:79-90 | the walk back from a link that has a chain ends at the base, so it is never an incomplete chain |
| `Chains.ChainUnique` | Manipulator.cpp:79-93 | a link has at most one chain from the base |
| `Kinematics.ResolvesDeterministic` | Manipulator.cpp:96-135 | accumulation along a chain admits exactly one outcome |
| `Kinematics.ResolutionDeterministic` | Manipulator.cpp:75-136 | resolving a link's position admits exactly one outcome, so resolving twice with unchanged links gives the same answer |
| `Kinematics.SingleLinkLocated` | Manipulator.cpp:79-135 | a single link hanging off the base, within the orientation bounds if it is link 1, resolves to its own displacement |
| `Kinematics.RootLinkRejected` | Manipulator.cpp:106-113 | link 1 hanging off the base with pitch or yaw above π/2 is rejected with that pitch and yaw |
| `Kinematics.MissingParentIncomplete` | Manipulator.cpp:81-90 | a link whose predecessor is neither the base nor registered resolves to an incomplete chain naming that predecessor |
| `Kinematics.CoincidingLinksCollide` | Manipulator.cpp:125-131 | a second link with zero displacement ends where the first one does, and the resolution reports a collision for the second link at that point |
| `Geometry.DistanceThreshold` | Manipulator.cpp:169-174 | for a non-negative distance d, d < 0.1 holds exactly when d² < 0.01, so the square root can be left out |
| `Geometry.SqDist` | Manipulator.cpp:169-171 | the squared distance is non-negative and is 0 between equal points |

## Left out

- `sin`, `cos`, `sqrt`, `pow` and the value of `M_PI` (Manipulator.cpp:7, 116-118, 159-161, 169-171) are floating point and are not modelled. The displacement is an abstract function `disp`, π/2 is an abstract `halfPi`, and the distance test compares squared distances over the reals. Rounding is not modelled.
- `openGripper`, `closeGripper` and `takePhoto` (Manipulator.cpp:41-65) are left out. They dispatch through run-time type tests to gripper and camera classes that are not part of this model. The map entry that their `links_[id]` creates for an unknown identifier is left out with them.
- `printStructure` (Manipulator.cpp:183-191) and every diagnostic written to the error stream are console output and are left out. The tagged `Outcome` and the boolean result of `AddLink` carry the information those diagnostics report.
- The destructor (Manipulator.cpp:10-13) is manual memory release. The model stores links as values owned by the map.
- The internals of the link classes (`getR`, `getDirection`, `getPrevId`, the link's own `setDirection`, `printInfo`) are not part of this model. A link is the record `(id, r, pitch, yaw, roll, prevId)`.
- Robot.Manipulator.WalkBack: also stops at an identifier it has already recorded, which the C++ loop does not check. That is the one case where the C++ walk never reaches the base or a missing identifier; there `chain` grows until allocation fails. The model returns `Diverges` instead and does not model the allocation failure.
- Robot.Manipulator.SetDirection: requires the identifier to be registered, as the C++ code asserts at Manipulator.cpp:36. It does not model a checked error for an unknown identifier.
