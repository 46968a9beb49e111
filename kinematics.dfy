// Positions along a chain of links as prefix sums of their displacements,
// the two rejection rules (orientation of link 1, self-collision) and what
// resolving a link's position must produce.
module Kinematics {
  import opened Geometry
  import opened Chains

  /** The displacement a registered link adds to the position of the one before it;
      roll plays no part. */
  function Offset(links: Registry, disp: DispFn, k: int): Vec3
    requires k in links
  {
    var l := links[k];
    disp(l.r, l.pitch, l.yaw)
  }

  /** The position reached after the first n links of chain c: the prefix sum
      of their displacements, starting at the base. */
  function Position(links: Registry, disp: DispFn, c: seq<int>, n: nat): Vec3
    requires n <= |c|
    requires forall k :: 0 <= k < n ==> c[k] in links
    decreases n
  {
    if n == 0 then Origin else Add(Position(links, disp, c, n - 1), Offset(links, disp, c[n - 1]))
  }

  /** p lies closer than the minimum separation to the end of link j of c. */
  predicate TooClose(links: Registry, disp: DispFn, c: seq<int>, j: nat, p: Vec3)
    requires j < |c|
    requires forall k :: 0 <= k <= j ==> c[k] in links
  {
    SqDist(p, Position(links, disp, c, j + 1)) < MinSeparationSq
  }

  /** p is too close to the end of one of the first i links of c (the base is
      not one of them). */
  ghost predicate CollidesWithEarlier(links: Registry, disp: DispFn, c: seq<int>, i: nat, p: Vec3)
    requires i <= |c|
    requires forall k :: 0 <= k < i ==> c[k] in links
  {
    exists j: nat :: j < i && TooClose(links, disp, c, j, p)
  }

  /** Link i of c is link 1 and its pitch or yaw exceeds a right angle. */
  predicate BadRootAt(links: Registry, halfPi: real, c: seq<int>, i: nat)
    requires i < |c| && c[i] in links
  {
    c[i] == 1 && (links[c[i]].pitch > halfPi || links[c[i]].yaw > halfPi)
  }

  /** Link i of c, other than the first, ends too close to one of the links before it. */
  ghost predicate CollisionAt(links: Registry, disp: DispFn, c: seq<int>, i: nat)
    requires i < |c| && AllRegistered(links, c)
  {
    0 < i && CollidesWithEarlier(links, disp, c, i, Position(links, disp, c, i + 1))
  }

  /** Neither rejection rule fires at any of the first n links of c. */
  ghost predicate Clear(links: Registry, disp: DispFn, halfPi: real, c: seq<int>, n: nat)
    requires n <= |c| && AllRegistered(links, c)
  {
    forall i: nat :: i < n ==> !BadRootAt(links, halfPi, c, i) && !CollisionAt(links, disp, c, i)
  }

  /** What resolving a link's position produces. */
  datatype Outcome =
    | Located(p: Vec3)
    | IncompleteChain(missing: int)
    | RootOrientationOutOfRange(pitch: real, yaw: real)
    | CollisionDetected(link: int, at: Vec3)
    | Diverges

  /** The triple the manipulator hands back: the position on success and the
      origin for every rejection (the walk that never ends returns nothing). */
  function SourceTuple(o: Outcome): Vec3
    requires !o.Diverges?
  {
    if o.Located? then o.p else Origin
  }

  /** res is what accumulating along the complete chain c gives: the first link
      at which a rule fires decides the rejection (the orientation rule is
      tested before the collision rule at the same link), and with no
      rejection the result is the sum of all displacements. */
  ghost predicate Resolves(links: Registry, disp: DispFn, halfPi: real, c: seq<int>, res: Outcome)
    requires AllRegistered(links, c)
  {
    match res
    case Located(p) =>
      Clear(links, disp, halfPi, c, |c|) && p == Position(links, disp, c, |c|)
    case RootOrientationOutOfRange(pitch, yaw) =>
      exists k: nat :: k < |c| && Clear(links, disp, halfPi, c, k) && BadRootAt(links, halfPi, c, k) &&
        pitch == links[c[k]].pitch && yaw == links[c[k]].yaw
    case CollisionDetected(link, at) =>
      exists k: nat :: k < |c| && Clear(links, disp, halfPi, c, k) && !BadRootAt(links, halfPi, c, k) &&
        CollisionAt(links, disp, c, k) && link == c[k] && at == Position(links, disp, c, k + 1)
    case _ => false
  }

  /** res is what resolving the position of link id gives: Diverges exactly
      when the walk back never ends, IncompleteChain when it stops at a
      missing identifier, and otherwise the accumulation along id's chain. */
  ghost predicate ResolvesFrom(links: Registry, disp: DispFn, halfPi: real, id: int, res: Outcome) {
    (res.Diverges? <==> !Terminates(links, id)) &&
    (res.IncompleteChain? ==> res.missing != 0 && EndsAt(links, id, res.missing)) &&
    (res.Located? || res.RootOrientationOutOfRange? || res.CollisionDetected? ==>
      exists c :: IsChainTo(links, c, id) && Resolves(links, disp, halfPi, c, res))
  }

  /** Accumulating along a chain has exactly one result. */
  lemma ResolvesDeterministic(links: Registry, disp: DispFn, halfPi: real, c: seq<int>, r1: Outcome, r2: Outcome)
    requires AllRegistered(links, c)
    requires Resolves(links, disp, halfPi, c, r1) && Resolves(links, disp, halfPi, c, r2)
    ensures r1 == r2
  {
  }

  /** Resolving a link's position has exactly one result: resolving twice
      with the same links gives the same answer. */
  lemma ResolutionDeterministic(links: Registry, disp: DispFn, halfPi: real, id: int, r1: Outcome, r2: Outcome)
    requires ResolvesFrom(links, disp, halfPi, id, r1) && ResolvesFrom(links, disp, halfPi, id, r2)
    ensures r1 == r2
  {
    if r1.IncompleteChain? && r2.IncompleteChain? {
      EndsAtUnique(links, id, r1.missing, r2.missing);
    } else if r1.IncompleteChain? && !r2.Diverges? {
      var c :| IsChainTo(links, c, id) && Resolves(links, disp, halfPi, c, r2);
      ChainReachesBase(links, c, id);
      EndsAtUnique(links, id, r1.missing, 0);
    } else if r2.IncompleteChain? && !r1.Diverges? {
      var c :| IsChainTo(links, c, id) && Resolves(links, disp, halfPi, c, r1);
      ChainReachesBase(links, c, id);
      EndsAtUnique(links, id, r2.missing, 0);
    } else if !r1.Diverges? && !r2.Diverges? {
      var c1 :| IsChainTo(links, c1, id) && Resolves(links, disp, halfPi, c1, r1);
      var c2 :| IsChainTo(links, c2, id) && Resolves(links, disp, halfPi, c2, r2);
      ChainUnique(links, c1, c2, id);
      ResolvesDeterministic(links, disp, halfPi, c1, r1, r2);
    }
  }

  /** For a link whose walk back ends, the triple the manipulator hands back
      is the sum of displacements along its chain when no rule fires on it,
      and the origin when the chain is incomplete or a rule fires. */
  lemma SourceTupleOfLink(links: Registry, disp: DispFn, halfPi: real, id: int, res: Outcome)
    requires ResolvesFrom(links, disp, halfPi, id, res) && Terminates(links, id)
    ensures !res.Diverges?
    ensures forall c | IsChainTo(links, c, id) && Clear(links, disp, halfPi, c, |c|) ::
      SourceTuple(res) == Position(links, disp, c, |c|)
    ensures (forall c | IsChainTo(links, c, id) :: !Clear(links, disp, halfPi, c, |c|)) ==>
      SourceTuple(res) == Origin
  {
    forall c | IsChainTo(links, c, id) && Clear(links, disp, halfPi, c, |c|)
      ensures SourceTuple(res) == Position(links, disp, c, |c|)
    {
      var located := Located(Position(links, disp, c, |c|));
      assert Resolves(links, disp, halfPi, c, located);
      assert ResolvesFrom(links, disp, halfPi, id, located);
      ResolutionDeterministic(links, disp, halfPi, id, res, located);
    }
  }

  /** A single link hanging off the base, within the orientation bounds if it
      is link 1, resolves to its own displacement. */
  lemma SingleLinkLocated(links: Registry, disp: DispFn, halfPi: real, id: int)
    requires id != 0 && id in links && links[id].prevId == 0
    requires id == 1 ==> links[id].pitch <= halfPi && links[id].yaw <= halfPi
    ensures ResolvesFrom(links, disp, halfPi, id, Located(Offset(links, disp, id)))
  {
    var c := [id];
    assert Step(links, id, 1) == 0;
    assert IsChainTo(links, c, id);
    assert Clear(links, disp, halfPi, c, 1) by {
      assert !CollisionAt(links, disp, c, 0);
    }
    assert Position(links, disp, c, 1) == Add(Origin, Offset(links, disp, id));
  }

  /** Link 1 hanging off the base with pitch or yaw above a right angle is rejected. */
  lemma RootLinkRejected(links: Registry, disp: DispFn, halfPi: real)
    requires 1 in links && links[1].prevId == 0
    requires links[1].pitch > halfPi || links[1].yaw > halfPi
    ensures ResolvesFrom(links, disp, halfPi, 1,
      RootOrientationOutOfRange(links[1].pitch, links[1].yaw))
  {
    var c := [1];
    assert Step(links, 1, 1) == 0;
    assert IsChainTo(links, c, 1);
    assert Clear(links, disp, halfPi, c, 0);
    assert BadRootAt(links, halfPi, c, 0);
  }

  /** A link hanging off an identifier that nobody registered has an incomplete chain. */
  lemma MissingParentIncomplete(links: Registry, disp: DispFn, halfPi: real, id: int)
    requires id != 0 && id in links
    requires links[id].prevId != 0 && links[id].prevId !in links
    ensures ResolvesFrom(links, disp, halfPi, id, IncompleteChain(links[id].prevId))
  {
    assert Step(links, id, 1) == links[id].prevId;
  }

  /** An unregistered target other than the base has an incomplete chain naming itself. */
  lemma UnregisteredTargetIncomplete(links: Registry, disp: DispFn, halfPi: real, id: int)
    requires id != 0 && id !in links
    ensures ResolvesFrom(links, disp, halfPi, id, IncompleteChain(id))
  {
    assert Step(links, id, 0) == id;
  }

  /** A second link with no displacement ends where the first one does, and
      the resolution reports the collision. */
  lemma CoincidingLinksCollide(links: Registry, disp: DispFn, halfPi: real, a: int, b: int)
    requires a != 0 && b != 0
    requires a in links && b in links
    requires links[a].prevId == 0 && links[b].prevId == a
    requires a == 1 ==> links[a].pitch <= halfPi && links[a].yaw <= halfPi
    requires b == 1 ==> links[b].pitch <= halfPi && links[b].yaw <= halfPi
    requires Offset(links, disp, b) == Origin
    ensures ResolvesFrom(links, disp, halfPi, b,
      CollisionDetected(b, Offset(links, disp, a)))
  {
    var c := [a, b];
    assert Step(links, b, 2) == 0;
    assert IsChainTo(links, c, b);
    var end1 := Position(links, disp, c, 1);
    assert end1 == Offset(links, disp, a);
    assert Position(links, disp, c, 2) == end1;
    assert TooClose(links, disp, c, 0, end1);
    assert CollisionAt(links, disp, c, 1);
    assert Clear(links, disp, halfPi, c, 1) by {
      assert !CollisionAt(links, disp, c, 0);
    }
  }
}
