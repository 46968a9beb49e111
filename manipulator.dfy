// The manipulator: a registry of links keyed by identifier, and the
// resolution of a link's absolute position by walking back to the base and
// accumulating displacements with orientation and collision checks.
module Robot {
  import opened Geometry
  import opened Chains
  import opened Kinematics

  datatype Option<T> = None | Some(value: T)

  class Manipulator {
    /** Every registered link, keyed by its identifier. */
    var links: Registry
    /** The displacement of a link from its length, pitch and yaw. */
    const disp: DispFn
    /** A right angle, the largest pitch and yaw allowed for link 1. */
    const halfPi: real

    /** Each link is stored under its own identifier. No operation relies on
        this; it records that the registry's key is always the link's `id`. */
    ghost predicate Valid()
      reads this
    {
      forall k :: k in links ==> links[k].id == k
    }

    constructor (disp: DispFn, halfPi: real)
      ensures Valid()
      ensures links == map[] && this.disp == disp && this.halfPi == halfPi
    {
      links := map[];
      this.disp := disp;
      this.halfPi := halfPi;
    }

    /** Registers link under its identifier unless that identifier is taken,
        in which case the registry keeps the link it already had. */
    method AddLink(link: Link) returns (added: bool)
      requires Valid()
      modifies this
      ensures Valid()
      ensures added <==> link.id !in old(links)
      ensures added ==> links == old(links)[link.id := link]
      ensures !added ==> links == old(links)
    {
      added := link.id !in links;
      if added {
        links := links[link.id := link];
      }
    }

    /** The link registered under id, if any. */
    function GetLink(id: int): (r: Option<Link>)
      reads this
      ensures r.Some? <==> id in links
      ensures r.Some? ==> r.value == links[id]
    {
      if id in links then Some(links[id]) else None
    }

    /** Gives the registered link id a new orientation; nothing else changes. */
    method SetDirection(id: int, newPitch: real, newYaw: real, newRoll: real)
      requires Valid() && id in links
      modifies this
      ensures Valid()
      ensures links.Keys == old(links).Keys
      ensures links[id] == old(links)[id].(pitch := newPitch, yaw := newYaw, roll := newRoll)
      ensures forall k :: k in links && k != id ==> links[k] == old(links)[k]
    {
      links := links[id := links[id].(pitch := newPitch, yaw := newYaw, roll := newRoll)];
    }

    /** Walks back from id through the previous-link identifiers, recording each
        registered link passed, until it reaches the base, a missing identifier,
        or an identifier it has already recorded (from there the walk would go
        round forever). */
    method WalkBack(id: int) returns (trail: seq<int>, stop: int)
      ensures IsTrail(links, trail, id, stop)
      ensures Terminal(links, stop) || stop in trail
    {
      trail := [];
      var current := id;
      while current != 0 && current in links && current !in trail
        invariant IsTrail(links, trail, id, current)
        decreases links.Keys - set k | k in trail
      {
        ghost var seen := set k | k in trail;
        ghost var seen' := set k | k in trail + [current];
        assert seen' == seen + {current};
        assert seen <= links.Keys;
        trail := trail + [current];
        current := links[current].prevId;
      }
      stop := current;
    }

    /** Reports false when p lies closer than the minimum separation to the end
        of one of the first currentIndex links of chain, each such position
        being summed afresh from the base. */
    method CheckCollision(chain: seq<int>, currentIndex: nat, p: Vec3) returns (ok: bool)
      requires currentIndex <= |chain|
      requires forall k :: 0 <= k < currentIndex ==> chain[k] in links
      ensures ok <==> !CollidesWithEarlier(links, disp, chain, currentIndex, p)
    {
      var i := 0;
      while i < currentIndex
        invariant i <= currentIndex
        invariant forall j: nat :: j < i ==> !TooClose(links, disp, chain, j, p)
      {
        var prevPos := Origin;
        var j := 0;
        while j <= i
          invariant j <= i + 1
          invariant prevPos == Position(links, disp, chain, j)
        {
          var link := links[chain[j]];
          prevPos := Add(prevPos, disp(link.r, link.pitch, link.yaw));
          j := j + 1;
        }
        if SqDist(p, prevPos) < MinSeparationSq {
          assert TooClose(links, disp, chain, i, p);
          return false;
        }
        i := i + 1;
      }
      return true;
    }

    /** Accumulates the displacements along chain from the base, rejecting
        link 1 when its pitch or yaw exceeds a right angle and any link after
        the first that lands too close to an earlier one. */
    method Accumulate(chain: seq<int>) returns (res: Outcome)
      requires AllRegistered(links, chain)
      ensures res.Located? || res.RootOrientationOutOfRange? || res.CollisionDetected?
      ensures Resolves(links, disp, halfPi, chain, res)
    {
      var pos := Origin;
      var i := 0;
      while i < |chain|
        invariant i <= |chain|
        invariant pos == Position(links, disp, chain, i)
        invariant Clear(links, disp, halfPi, chain, i)
      {
        var link := links[chain[i]];
        if chain[i] == 1 && (link.pitch > halfPi || link.yaw > halfPi) {
          return RootOrientationOutOfRange(link.pitch, link.yaw);
        }
        pos := Add(pos, disp(link.r, link.pitch, link.yaw));
        if i > 0 {
          var ok := CheckCollision(chain, i, pos);
          if !ok {
            return CollisionDetected(chain[i], pos);
          }
        }
        i := i + 1;
      }
      return Located(pos);
    }

    /** The absolute position of link id. */
    method CalculatePosition(id: int) returns (res: Outcome)
      ensures ResolvesFrom(links, disp, halfPi, id, res)
    {
      var trail, current := WalkBack(id);
      if current != 0 && current in links {
        var p :| 0 <= p < |trail| && trail[p] == current;
        CycleDiverges(links, trail, id, p);
        return Diverges;
      }
      TrailEndsAt(links, trail, id, current);
      if current != 0 {
        return IncompleteChain(current);
      }
      var chain := Reverse(trail);
      ChainFromTrail(links, trail, id);
      res := Accumulate(chain);
    }
  }
}
