// Links, the registry that maps identifiers to them, and the "previous link"
// relation: walks from a link back towards the base, and chains from the
// base out to a link.
module Chains {

  /** A movable link: its identifier, segment length r, orientation
      (pitch, yaw, roll) and the identifier of the link it hangs from,
      0 standing for the fixed base. */
  datatype Link = Link(id: int, r: real, pitch: real, yaw: real, roll: real, prevId: int)

  /** The manipulator's map from identifier to link. */
  type Registry = map<int, Link>

  predicate AllRegistered(links: Registry, s: seq<int>) {
    forall k :: 0 <= k < |s| ==> s[k] in links
  }

  /** The walk back stops at the base or at an identifier nobody registered. */
  predicate Terminal(links: Registry, k: int) {
    k == 0 || k !in links
  }

  /** One step of the walk back: a registered link other than the base moves
      on to its predecessor; a terminal identifier stays where it is. */
  function Next(links: Registry, k: int): int {
    if Terminal(links, k) then k else links[k].prevId
  }

  /** The identifier the walk back from `id` holds after `n` steps. */
  function Step(links: Registry, id: int, n: nat): int
    decreases n
  {
    if n == 0 then id else Step(links, Next(links, id), n - 1)
  }

  /** The walk back from `id` reaches the base or a missing identifier. */
  ghost predicate Terminates(links: Registry, id: int) {
    exists n: nat :: Terminal(links, Step(links, id, n))
  }

  /** The walk back from `id` stops at `s`. */
  ghost predicate EndsAt(links: Registry, id: int, s: int) {
    Terminal(links, s) && exists n: nat :: Step(links, id, n) == s
  }

  /** `t` lists the links the walk back from `from` passes through, in walking
      order, and the walk then holds `stop`. */
  ghost predicate IsTrail(links: Registry, t: seq<int>, from: int, stop: int) {
    (t == [] ==> from == stop) &&
    (t != [] ==>
      t[0] == from &&
      AllRegistered(links, t) &&
      (forall k :: 0 <= k < |t| ==> t[k] != 0) &&
      (forall k :: 0 <= k < |t| - 1 ==> links[t[k]].prevId == t[k + 1]) &&
      links[t[|t| - 1]].prevId == stop)
  }

  /** `c` is the chain from the base out to `target`: its first link hangs off
      the base, each further link hangs off the one before it, and the last is
      the target. The base itself (identifier 0) has the empty chain. */
  ghost predicate IsChainTo(links: Registry, c: seq<int>, target: int) {
    (c == [] ==> target == 0) &&
    (c != [] ==>
      c[|c| - 1] == target &&
      AllRegistered(links, c) &&
      (forall k :: 0 <= k < |c| ==> c[k] != 0) &&
      links[c[0]].prevId == 0 &&
      (forall k :: 0 < k < |c| ==> links[c[k]].prevId == c[k - 1]))
  }

  /** The sequence in reverse order. */
  function Reverse<T>(s: seq<T>): (r: seq<T>)
    ensures |r| == |s|
    ensures forall k :: 0 <= k < |s| ==> r[k] == s[|s| - 1 - k]
  {
    if s == [] then [] else Reverse(s[1..]) + [s[0]]
  }

  lemma {:induction false} StepSucc(links: Registry, id: int, n: nat)
    ensures Step(links, id, n + 1) == Next(links, Step(links, id, n))
    decreases n
  {
    if n > 0 {
      StepSucc(links, Next(links, id), n - 1);
    }
  }

  /** Once the walk is at a terminal identifier it stays there. */
  lemma {:induction false} StepAtTerminal(links: Registry, id: int, n: nat, m: nat)
    requires Terminal(links, Step(links, id, n))
    ensures Step(links, id, n + m) == Step(links, id, n)
  {
    if m > 0 {
      StepAtTerminal(links, id, n, m - 1);
      StepSucc(links, id, n + m - 1);
    }
  }

  /** The walk back stops at no more than one identifier. */
  lemma EndsAtUnique(links: Registry, id: int, s1: int, s2: int)
    requires EndsAt(links, id, s1) && EndsAt(links, id, s2)
    ensures s1 == s2
  {
    var n1: nat :| Step(links, id, n1) == s1;
    var n2: nat :| Step(links, id, n2) == s2;
    if n1 <= n2 {
      StepAtTerminal(links, id, n1, n2 - n1);
    } else {
      StepAtTerminal(links, id, n2, n1 - n2);
    }
  }

  /** A trail is exactly the walk back: its k-th entry is where the walk is
      after k steps, and after |t| steps the walk holds `stop`. */
  lemma {:induction false} TrailSteps(links: Registry, t: seq<int>, id: int, stop: int, k: nat)
    requires IsTrail(links, t, id, stop)
    requires k <= |t|
    ensures Step(links, id, k) == if k < |t| then t[k] else stop
  {
    if k > 0 {
      TrailSteps(links, t, id, stop, k - 1);
      StepSucc(links, id, k - 1);
    }
  }

  /** A trail that ends at a terminal identifier is a walk that terminates there. */
  lemma TrailEndsAt(links: Registry, t: seq<int>, id: int, stop: int)
    requires IsTrail(links, t, id, stop) && Terminal(links, stop)
    ensures EndsAt(links, id, stop) && Terminates(links, id)
  {
    TrailSteps(links, t, id, stop, |t|);
  }

  /** If the walk comes back to an identifier already on its trail, it keeps
      going round the trail: every step holds some entry of it. */
  lemma {:induction false} CycleStepOnTrail(links: Registry, t: seq<int>, id: int, p: nat, n: nat)
    returns (k: nat)
    requires p < |t| && IsTrail(links, t, id, t[p])
    ensures k < |t| && Step(links, id, n) == t[k]
  {
    if n == 0 {
      k := 0;
    } else {
      var j := CycleStepOnTrail(links, t, id, p, n - 1);
      StepSucc(links, id, n - 1);
      k := if j < |t| - 1 then j + 1 else p;
    }
  }

  /** A walk that returns to its own trail never reaches a terminal identifier. */
  lemma CycleDiverges(links: Registry, t: seq<int>, id: int, p: nat)
    requires p < |t| && IsTrail(links, t, id, t[p])
    ensures !Terminates(links, id)
  {
    forall n: nat ensures !Terminal(links, Step(links, id, n)) {
      var k := CycleStepOnTrail(links, t, id, p, n);
    }
  }

  /** Reversing a trail that ends at the base gives the chain to its first link. */
  lemma ChainFromTrail(links: Registry, t: seq<int>, id: int)
    requires IsTrail(links, t, id, 0)
    ensures IsChainTo(links, Reverse(t), id)
  {
    var c := Reverse(t);
    if c != [] {
      var n := |t|;
      assert AllRegistered(links, c) by {
        forall k | 0 <= k < n ensures c[k] in links { assert c[k] == t[n - 1 - k]; }
      }
      forall k | 0 < k < n ensures links[c[k]].prevId == c[k - 1] {
        assert c[k] == t[n - 1 - k] && c[k - 1] == t[n - 1 - k + 1];
      }
    }
  }

  /** Reversing the chain to a link gives the walk back from it, ending at the base. */
  lemma TrailFromChain(links: Registry, c: seq<int>, target: int)
    requires IsChainTo(links, c, target)
    ensures IsTrail(links, Reverse(c), target, 0)
  {
    var t := Reverse(c);
    if t != [] {
      var n := |c|;
      assert AllRegistered(links, t) by {
        forall k | 0 <= k < n ensures t[k] in links { assert t[k] == c[n - 1 - k]; }
      }
      forall k | 0 <= k < n - 1 ensures links[t[k]].prevId == t[k + 1] {
        assert t[k] == c[n - 1 - k] && t[k + 1] == c[n - 1 - k - 1];
      }
    }
  }

  /** The chain to a link is a walk back to the base. */
  lemma ChainReachesBase(links: Registry, c: seq<int>, target: int)
    requires IsChainTo(links, c, target)
    ensures EndsAt(links, target, 0)
  {
    TrailFromChain(links, c, target);
    TrailEndsAt(links, Reverse(c), target, 0);
  }

  /** A chain has a single link exactly when the target hangs off the base. */
  lemma ChainOfOne(links: Registry, c: seq<int>, target: int)
    requires IsChainTo(links, c, target) && c != []
    ensures |c| == 1 <==> links[target].prevId == 0
  {
    assert links[c[|c| - 1]].prevId == if |c| == 1 then 0 else c[|c| - 2];
  }

  /** Every link has at most one chain from the base. */
  lemma {:induction false} ChainUnique(links: Registry, c1: seq<int>, c2: seq<int>, target: int)
    requires IsChainTo(links, c1, target) && IsChainTo(links, c2, target)
    ensures c1 == c2
  {
    if c1 != [] && c2 != [] {
      ChainOfOne(links, c1, target);
      ChainOfOne(links, c2, target);
      if |c1| > 1 {
        var p1, p2 := c1[..|c1| - 1], c2[..|c2| - 1];
        var prev := links[target].prevId;
        assert IsChainTo(links, p1, prev);
        assert IsChainTo(links, p2, prev);
        ChainUnique(links, p1, p2, prev);
        assert c1 == p1 + [target] && c2 == p2 + [target];
      }
    }
  }
}
