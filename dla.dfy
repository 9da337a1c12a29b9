/** Diffusion-limited aggregation in the style of Witten and Sanders (1981):
    disk-shaped particles and the append-only cluster they stick onto.

    Coordinates are exact reals. `Math.sqrt` is the caller-supplied `sqrt`
    (see module Roots); the random headings of a walk are supplied as unit
    vectors. */
module Dla {
  import Roots
  import Scan

  /** The global step length of a random-walk move. */
  const StepSize: real := 1.0

  /** `Number.MAX_SAFE_INTEGER`, the starting bound of the nearest-member scan. */
  const MaxSafeInteger: real := 9007199254740991.0

  /** Squared Euclidean distance from (x1, y1) to (x2, y2). */
  function SqDist(x1: real, y1: real, x2: real, y2: real): real {
    Roots.Sq(x2 - x1) + Roots.Sq(y2 - y1)
  }

  function Max(a: real, b: real): real {
    if a < b then b else a
  }

  /** A squared distance is never negative, and is zero exactly between equal points. */
  lemma SqDistSign(x1: real, y1: real, x2: real, y2: real)
    ensures 0.0 <= SqDist(x1, y1, x2, y2)
    ensures x1 == x2 && y1 == y2 ==> SqDist(x1, y1, x2, y2) == 0.0
    ensures x1 != x2 || y1 != y2 ==> 0.0 < SqDist(x1, y1, x2, y2)
  {
    Roots.SqNonneg(x2 - x1);
    Roots.SqNonneg(y2 - y1);
    if x1 != x2 {
      Roots.SqPos(x2 - x1);
    } else if y1 != y2 {
      Roots.SqPos(y2 - y1);
    }
  }

  /** SqDist does not depend on the order of its two points. */
  lemma SqDistSymmetric(x1: real, y1: real, x2: real, y2: real)
    ensures SqDist(x1, y1, x2, y2) == SqDist(x2, y2, x1, y1)
  {
    Roots.SqNeg(x2 - x1);
    Roots.SqNeg(y2 - y1);
  }

  /** THREE's `Vector2.setLength(len)` on a vector (vx, vy) whose length is s: the
      vector divided by s and multiplied by len, written here as one factor len / s. */
  function SetLength(vx: real, vy: real, len: real, s: real): (real, real)
    requires Roots.IsLength(vx, vy, s)
  {
    (vx * (len / s), vy * (len / s))
  }

  /** Setting the length of (vx, vy), whose length is s, to len: the result has length
      |len|, is parallel to (vx, vy), and points the same way when len >= 0. */
  lemma SetLengthGeometry(vx: real, vy: real, len: real, s: real)
    requires Roots.IsLength(vx, vy, s)
    ensures var v := SetLength(vx, vy, len, s); Scaled(vx, vy, v.0, v.1, len)
  {
    var v := SetLength(vx, vy, len, s);
    Rescaled(vx, vy, s, len, v.0, v.1);
  }

  /** (ax, ay) has length |len|, is parallel to (vx, vy), and points the same way when
      len >= 0. */
  ghost predicate Scaled(vx: real, vy: real, ax: real, ay: real, len: real) {
    && ax * ax + ay * ay == len * len
    && ax * vy == ay * vx
    && (0.0 <= len ==> 0.0 <= ax * vx + ay * vy)
  }

  lemma Rescaled(vx: real, vy: real, s: real, len: real, ax: real, ay: real)
    requires 0.0 < s && s * s == vx * vx + vy * vy
    requires ax == vx * (len / s) && ay == vy * (len / s)
    ensures ax * ax + ay * ay == len * len
    ensures ax * vy == ay * vx
    ensures 0.0 <= len ==> 0.0 <= ax * vx + ay * vy
  {
    var k := len / s;
    assert ax * ax + ay * ay == (k * k) * (vx * vx + vy * vy);
    assert k * s == len;
    assert (k * k) * (s * s) == (k * s) * (k * s);
    assert (k * k) * (vx * vx + vy * vy) == (k * k) * (s * s);
    assert ax * vx + ay * vy == k * (vx * vx + vy * vy);
    assert 0.0 <= vx * vx && 0.0 <= vy * vy;
  }

  /** Where `stickTo` puts a centre at (x1, y1) against a centre at (x2, y2): the
      vector from the second to the first, set to length `len` and laid off from
      the second. */
  function Snap(x1: real, y1: real, x2: real, y2: real, len: real, sqrt: real -> real): (real, real)
    requires Roots.IsSqrt(sqrt)
    requires x1 != x2 || y1 != y2
  {
    var vx, vy := x1 - x2, y1 - y2;
    Roots.LengthPos(sqrt, vx, vy);
    var v := SetLength(vx, vy, len, Roots.Length(sqrt, vx, vy));
    (x2 + v.0, y2 + v.1)
  }

  /** The squared distance from an offset point back to where it was offset from. */
  lemma SqDistOffset(x: real, y: real, ax: real, ay: real)
    ensures SqDist(x + ax, y + ay, x, y) == ax * ax + ay * ay
  {
    Roots.SqNeg(ax);
    Roots.SqNeg(ay);
  }

  /** (rx, ry) is at distance |len| from (x2, y2), on the line through (x2, y2) and
      (x1, y1), and, for a non-negative length, on the side of (x1, y1). */
  ghost predicate OnRay(x1: real, y1: real, x2: real, y2: real, rx: real, ry: real, len: real) {
    && SqDist(rx, ry, x2, y2) == len * len
    && (rx - x2) * (y1 - y2) == (ry - y2) * (x1 - x2)
    && (0.0 <= len ==> 0.0 <= (rx - x2) * (x1 - x2) + (ry - y2) * (y1 - y2))
  }

  /** The snapped centre lies on the ray from (x2, y2) through the old centre, at
      distance |len|. */
  lemma SnapGeometry(x1: real, y1: real, x2: real, y2: real, len: real, sqrt: real -> real)
    requires Roots.IsSqrt(sqrt)
    requires x1 != x2 || y1 != y2
    ensures var r := Snap(x1, y1, x2, y2, len, sqrt); OnRay(x1, y1, x2, y2, r.0, r.1, len)
  {
    var s := Roots.Length(sqrt, x1 - x2, y1 - y2);
    Roots.LengthPos(sqrt, x1 - x2, y1 - y2);
    SetLengthGeometry(x1 - x2, y1 - y2, len, s);
    var v := SetLength(x1 - x2, y1 - y2, len, s);
    var r := Snap(x1, y1, x2, y2, len, sqrt);
    OffsetGeometry(x1, y1, x2, y2, x1 - x2, y1 - y2, v.0, v.1, r.0, r.1, len);
  }

  /** The geometry of SnapGeometry, moved from the offset (ax, ay) to the point it reaches. */
  lemma OffsetGeometry(x1: real, y1: real, x2: real, y2: real, vx: real, vy: real,
                       ax: real, ay: real, rx: real, ry: real, len: real)
    requires vx == x1 - x2 && vy == y1 - y2
    requires rx == x2 + ax && ry == y2 + ay
    requires Scaled(vx, vy, ax, ay, len)
    ensures OnRay(x1, y1, x2, y2, rx, ry, len)
  {
    SqDistOffset(x2, y2, ax, ay);
  }

  /** Once the new centre is |len| away, its distance is len itself when len >= 0. */
  lemma SnapTouches(x1: real, y1: real, x2: real, y2: real, len: real, sqrt: real -> real)
    requires Roots.IsSqrt(sqrt)
    requires x1 != x2 || y1 != y2
    requires 0.0 <= len
    ensures var r := Snap(x1, y1, x2, y2, len, sqrt); sqrt(SqDist(r.0, r.1, x2, y2)) == len
  {
    SnapGeometry(x1, y1, x2, y2, len, sqrt);
    Roots.SqrtOfSquare(sqrt, len);
  }

  /** A heading of the walk, the pair (cos θ, sin θ) of the angle drawn by `step`. */
  type Heading = (real, real)

  ghost predicate IsUnit(h: Heading) {
    h.0 * h.0 + h.1 * h.1 == 1.0
  }

  /** How many moves `step(n)` makes: one, and n - 1 more when n > 1. */
  function Moves(n: int): nat {
    if 1 < n then n else 1
  }

  /** The centre reached from (x, y) by one move of StepSize along each heading in turn. */
  function Walk(x: real, y: real, hs: seq<Heading>): (real, real)
    decreases |hs|
  {
    if hs == [] then (x, y)
    else Walk(x + hs[0].0 * StepSize, y + hs[0].1 * StepSize, hs[1..])
  }

  /** Sum of the first (or second) components of the headings. */
  function SumCos(hs: seq<Heading>): real
    decreases |hs|
  {
    if hs == [] then 0.0 else hs[0].0 + SumCos(hs[1..])
  }

  function SumSin(hs: seq<Heading>): real
    decreases |hs|
  {
    if hs == [] then 0.0 else hs[0].1 + SumSin(hs[1..])
  }

  /** A walk displaces the centre by StepSize times the summed headings: the order of
      the moves does not matter and no move depends on an earlier one. */
  lemma {:induction false} WalkDisplacement(x: real, y: real, hs: seq<Heading>)
    ensures Walk(x, y, hs) == (x + StepSize * SumCos(hs), y + StepSize * SumSin(hs))
    decreases |hs|
  {
    if hs != [] {
      WalkDisplacement(x + hs[0].0 * StepSize, y + hs[0].1 * StepSize, hs[1..]);
    }
  }

  /** Walking two runs of headings one after the other is walking their concatenation. */
  lemma {:induction false} WalkAppend(x: real, y: real, hs: seq<Heading>, gs: seq<Heading>)
    ensures var m := Walk(x, y, hs); Walk(m.0, m.1, gs) == Walk(x, y, hs + gs)
    decreases |hs|
  {
    if hs != [] {
      var x', y' := x + hs[0].0 * StepSize, y + hs[0].1 * StepSize;
      assert (hs + gs)[0] == hs[0] && (hs + gs)[1..] == hs[1..] + gs;
      assert Walk(x, y, hs) == Walk(x', y', hs[1..]);
      assert Walk(x, y, hs + gs) == Walk(x', y', hs[1..] + gs);
      WalkAppend(x', y', hs[1..], gs);
    } else {
      assert hs + gs == gs;
    }
  }

  /** A single move along a unit heading covers exactly StepSize. */
  lemma OneMoveLength(x: real, y: real, h: Heading)
    requires IsUnit(h)
    ensures var m := Walk(x, y, [h]); SqDist(x, y, m.0, m.1) == StepSize * StepSize
  {
    var m := Walk(x, y, [h]);
    assert [h][1..] == [];
    assert m == Walk(x + h.0 * StepSize, y + h.1 * StepSize, []);
    assert SqDist(x, y, m.0, m.1) == (h.0 * h.0 + h.1 * h.1) * (StepSize * StepSize);
  }

  class Particle {
    var x: real
    var y: real
    var radius: real

    constructor (x0: real, y0: real, r: real)
      ensures x == x0 && y == y0 && radius == r
    {
      x, y, radius := x0, y0, r;
    }

    /** `step(n)`: one move along `hs[0]`, then `step(n - 1)` when n > 1. */
    method Step(n: int, hs: seq<Heading>)
      requires |hs| == Moves(n)
      modifies this
      ensures (x, y) == Walk(old(x), old(y), hs)
      ensures radius == old(radius)
      decreases n
    {
      x := x + hs[0].0 * StepSize;
      y := y + hs[0].1 * StepSize;
      if 1 < n {
        Step(n - 1, hs[1..]);
      }
    }

    function DistanceSquared(p: Particle): (d: real)
      reads this, p
      ensures 0.0 <= d
      ensures x == p.x && y == p.y ==> d == 0.0
      ensures x != p.x || y != p.y ==> 0.0 < d
    {
      SqDistSign(x, y, p.x, p.y);
      SqDist(x, y, p.x, p.y)
    }

    /** The distance between the two centres; DistanceIsRoot states what it is. */
    function Distance(p: Particle, sqrt: real -> real): real
      requires Roots.IsSqrt(sqrt)
      reads this, p
    {
      sqrt(DistanceSquared(p))
    }

    /** Moves this particle along the ray from p's centre so that the two disks touch. */
    method StickTo(p: Particle, sqrt: real -> real)
      requires Roots.IsSqrt(sqrt)
      requires x != p.x || y != p.y
      modifies this
      ensures SnappedTo(this, p, old(x), old(y), sqrt)
      ensures radius == old(radius) && unchanged(p)
    {
      ghost var target := Snap(x, y, p.x, p.y, radius + p.radius, sqrt);
      var v := (x - p.x, y - p.y);
      Roots.LengthPos(sqrt, v.0, v.1);
      v := SetLength(v.0, v.1, radius + p.radius, Roots.Length(sqrt, v.0, v.1));
      assert target == (p.x + v.0, p.y + v.1);
      x := p.x + v.0;
      y := p.y + v.1;
    }
  }

  /** The distance is the non-negative root of the squared distance, and it is zero
      exactly when the two centres coincide. */
  lemma DistanceIsRoot(a: Particle, b: Particle, sqrt: real -> real)
    requires Roots.IsSqrt(sqrt)
    ensures 0.0 <= a.Distance(b, sqrt)
    ensures a.Distance(b, sqrt) * a.Distance(b, sqrt) == a.DistanceSquared(b)
    ensures a.Distance(b, sqrt) == 0.0 <==> a.x == b.x && a.y == b.y
  {
    Roots.RootOf(sqrt, a.DistanceSquared(b));
    if a.x == b.x && a.y == b.y {
      Roots.SqrtOfSquare(sqrt, 0.0);
    } else {
      Roots.SqrtPos(sqrt, a.DistanceSquared(b));
    }
  }

  /** p's centre is where `stickTo` puts a particle that was centred at (x0, y0) against
      q: on the ray from q's centre through (x0, y0), at the sum of the two radii. */
  ghost predicate SnappedTo(p: Particle, q: Particle, x0: real, y0: real, sqrt: real -> real)
    reads p, q
  {
    Roots.IsSqrt(sqrt) && (x0 != q.x || y0 != q.y) && (p.x, p.y) == Snap(x0, y0, q.x, q.y, p.radius + q.radius, sqrt)
  }

  /** A particle snapped against q touches it: the centres are the sum of the radii apart. */
  lemma SnappedTouches(p: Particle, q: Particle, x0: real, y0: real, sqrt: real -> real)
    requires SnappedTo(p, q, x0, y0, sqrt)
    requires 0.0 <= p.radius + q.radius
    ensures p.Distance(q, sqrt) == p.radius + q.radius
  {
    SnapTouches(x0, y0, q.x, q.y, p.radius + q.radius, sqrt);
  }

  /** The disk of radius R about `seed` contains the disk `q`, stated without square roots. */
  ghost predicate Encloses(seed: Particle, q: Particle, R: real)
    reads seed, q
  {
    q.radius <= R && seed.DistanceSquared(q) <= Roots.Sq(R - q.radius)
  }

  /** The circle of radius R about `seed` passes through q's far edge, stated without
      square roots. */
  ghost predicate Attains(seed: Particle, q: Particle, R: real)
    reads seed, q
  {
    q.radius <= R && seed.DistanceSquared(q) == Roots.Sq(R - q.radius)
  }

  /** Attains says exactly that q's far edge is at distance R from the seed's centre. */
  lemma AttainsMeansReaches(seed: Particle, q: Particle, R: real, sqrt: real -> real)
    requires Roots.IsSqrt(sqrt)
    ensures Attains(seed, q, R) <==> seed.Distance(q, sqrt) + q.radius == R
  {
    var s := seed.Distance(q, sqrt);
    DistanceIsRoot(seed, q, sqrt);
    if 0.0 <= R - q.radius {
      Roots.SquareMonotone(s, R - q.radius);
      Roots.SquareMonotone(R - q.radius, s);
    }
  }

  /** Encloses says exactly that q's far edge is within R of the seed's centre. */
  lemma EnclosesMeansWithin(seed: Particle, q: Particle, R: real, sqrt: real -> real)
    requires Roots.IsSqrt(sqrt)
    ensures Encloses(seed, q, R) <==> seed.Distance(q, sqrt) + q.radius <= R
  {
    var s := seed.Distance(q, sqrt);
    DistanceIsRoot(seed, q, sqrt);
    if 0.0 <= R - q.radius {
      Roots.SquareMonotone(s, R - q.radius);
    }
  }

  /** A disk enclosed by a circle is enclosed by every larger circle about the same centre. */
  lemma EnclosesGrow(seed: Particle, q: Particle, R: real, R': real)
    requires Encloses(seed, q, R) && R <= R'
    ensures Encloses(seed, q, R')
  {
    Roots.SquareMonotone(R - q.radius, R' - q.radius);
  }

  /** Widening the circle about ps[0] from R0 to an R that also reaches p's far edge keeps
      every member of ps enclosed and takes in p. */
  lemma EnclosesAppend(ps: seq<Particle>, p: Particle, R0: real, R: real, sqrt: real -> real)
    requires Roots.IsSqrt(sqrt)
    requires 1 <= |ps|
    requires forall i :: 0 <= i < |ps| ==> Encloses(ps[0], ps[i], R0)
    requires R0 <= R && ps[0].Distance(p, sqrt) + p.radius <= R
    ensures forall i :: 0 <= i < |ps| + 1 ==> Encloses((ps + [p])[0], (ps + [p])[i], R)
  {
    forall i | 0 <= i < |ps| + 1
      ensures Encloses((ps + [p])[0], (ps + [p])[i], R)
    {
      if i < |ps| {
        EnclosesGrow(ps[0], ps[i], R0, R);
      } else {
        EnclosesMeansWithin(ps[0], p, R, sqrt);
      }
    }
  }

  /** The squared distances from p to the members ps, in order. */
  function SquaredDistances(p: Particle, ps: seq<Particle>): (ds: seq<real>)
    reads p, ps
    ensures |ds| == |ps|
    decreases |ps|
  {
    if ps == [] then [] else SquaredDistances(p, ps[..|ps| - 1]) + [p.DistanceSquared(ps[|ps| - 1])]
  }

  /** Entry i of SquaredDistances is the squared distance from p to ps[i]. */
  lemma {:induction false} SquaredDistanceAt(p: Particle, ps: seq<Particle>, i: nat)
    requires i < |ps|
    ensures SquaredDistances(p, ps)[i] == p.DistanceSquared(ps[i])
    decreases |ps|
  {
    if i < |ps| - 1 {
      SquaredDistanceAt(p, ps[..|ps| - 1], i);
    }
  }

  class Cluster {
    var particles: seq<Particle>
    var size: int
    var radius: real
    var radiusSquared: real
    /** The index of a member whose far edge the cluster circle passes through. */
    ghost var farthest: nat

    /** The seed is the first member, `size` counts the members, `radiusSquared` caches
        the square of `radius`, and the circle of that radius about the seed is the
        smallest one enclosing every member: it encloses them all and passes through
        the far edge of the member at `farthest`. */
    ghost predicate Valid()
      reads this, particles
    {
      && 1 <= |particles|
      && size == |particles|
      && radiusSquared == radius * radius
      && (forall i :: 0 <= i < |particles| ==> Encloses(particles[0], particles[i], radius))
      && farthest < |particles|
      && Attains(particles[0], particles[farthest], radius)
    }

    constructor (x: real, y: real, r: real)
      ensures Valid()
      ensures |particles| == 1 && fresh(particles[0])
      ensures particles[0].x == x && particles[0].y == y && particles[0].radius == r
      ensures size == 1 && radius == r && radiusSquared == r * r
    {
      var p := new Particle(x, y, r);
      particles := [p];
      size := 1;
      radius := p.radius;
      radiusSquared := p.radius * p.radius;
      farthest := 0;
      assert Attains(p, p, p.radius);
    }

    /** Appends p without moving it and widens the enclosing circle to take it in. */
    method Add(p: Particle, sqrt: real -> real)
      requires Valid() && Roots.IsSqrt(sqrt)
      modifies this
      ensures Valid()
      ensures particles == old(particles) + [p] && size == old(size) + 1
      ensures radius == Max(old(radius), particles[0].Distance(p, sqrt) + p.radius)
      ensures old(radius) <= radius
    {
      ghost var wider := Max(radius, particles[0].Distance(p, sqrt) + p.radius);
      EnclosesAppend(particles, p, radius, wider, sqrt);
      AttainsMeansReaches(particles[0], p, particles[0].Distance(p, sqrt) + p.radius, sqrt);
      particles := particles + [p];
      size := size + 1;
      var r := particles[0].Distance(p, sqrt) + p.radius;
      if r > radius {
        radius := r;
        radiusSquared := r * r;
        farthest := |particles| - 1;
      }
    }

    /** The squared distances from p to the members, in insertion order. */
    function Distances(p: Particle): (ds: seq<real>)
      reads this, particles, p
    {
      SquaredDistances(p, particles)
    }

    /** The scan at the head of `stickOn`: the member nearest to p, the earliest on ties,
        with its squared distance; no member and the sentinel when none is nearer than it. */
    method NearestParticle(p: Particle) returns (nearest: Particle?, minDistSquared: real)
      ensures match Scan.ArgMin(Distances(p), MaxSafeInteger)
        case None => nearest == null && minDistSquared == MaxSafeInteger
        case Some(k) => k < |particles| && nearest == particles[k] && minDistSquared == p.DistanceSquared(particles[k])
    {
      ghost var ds := Distances(p);
      nearest := null;
      minDistSquared := MaxSafeInteger;
      ghost var best: Scan.Option<nat> := Scan.None;
      for i := 0 to |particles|
        invariant best == Scan.ArgMin(ds[..i], MaxSafeInteger)
        invariant match best
          case None => nearest == null && minDistSquared == MaxSafeInteger
          case Some(k) => k < i && nearest == particles[k] && minDistSquared == ds[k]
      {
        var dist := p.DistanceSquared(particles[i]);
        SquaredDistanceAt(p, particles, i);
        assert ds[..i + 1][..i] == ds[..i];
        if dist < minDistSquared {
          minDistSquared := dist;
          nearest := particles[i];
          best := Scan.Some(i);
        }
      }
      assert ds[..|particles|] == ds;
      if best.Some? {
        SquaredDistanceAt(p, particles, best.value);
      }
    }

    /** `stickOn(p)`: moves p to touch its nearest member and adds it. The ghost result
        `k` is the index of that member. */
    method StickOn(p: Particle, sqrt: real -> real) returns (ghost k: nat)
      requires Valid() && Roots.IsSqrt(sqrt)
      requires forall i :: 0 <= i < |particles| ==> particles[i].x != p.x || particles[i].y != p.y
      requires exists i :: 0 <= i < |particles| && p.DistanceSquared(particles[i]) < MaxSafeInteger
      modifies this, p
      ensures Valid()
      ensures Scan.ArgMin(old(Distances(p)), MaxSafeInteger) == Scan.Some(k)
      ensures k < |old(particles)|
      ensures particles == old(particles) + [p] && size == old(size) + 1
      ensures SnappedTo(p, particles[k], old(p.x), old(p.y), sqrt)
      ensures p.radius == old(p.radius)
      ensures radius == Max(old(radius), particles[0].Distance(p, sqrt) + p.radius)
    {
      ghost var near :| 0 <= near < |particles| && p.DistanceSquared(particles[near]) < MaxSafeInteger;
      SquaredDistanceAt(p, particles, near);
      Scan.ArgMinSome(Distances(p), MaxSafeInteger, near);
      var nearest, minDistSquared := NearestParticle(p);
      k := Scan.ArgMin(Distances(p), MaxSafeInteger).value;
      assert p !in particles;
      p.StickTo(nearest, sqrt);
      Add(p, sqrt);
    }
  }

  /** Every member's far edge is within the cluster radius of the seed's centre. */
  lemma WithinRadius(c: Cluster, i: nat, sqrt: real -> real)
    requires c.Valid() && Roots.IsSqrt(sqrt)
    requires i < |c.particles|
    ensures c.particles[0].Distance(c.particles[i], sqrt) + c.particles[i].radius <= c.radius
  {
    EnclosesMeansWithin(c.particles[0], c.particles[i], c.radius, sqrt);
  }

  /** Some member's far edge lies exactly at the cluster radius from the seed's centre:
      with WithinRadius, the radius is the largest such distance. */
  lemma RadiusReached(c: Cluster, sqrt: real -> real)
    requires c.Valid() && Roots.IsSqrt(sqrt)
    ensures exists i :: 0 <= i < |c.particles| && c.particles[0].Distance(c.particles[i], sqrt) + c.particles[i].radius == c.radius
  {
    AttainsMeansReaches(c.particles[0], c.particles[c.farthest], c.radius, sqrt);
  }

  /** A seed of radius 0.05 at the origin and a particle of radius 0.05 at (10, 0):
      `stickOn` snaps the particle to (0.1, 0), touching the seed, and the radius that
      `add` then computes is 0.15 (the seed's radius 0.05 or 0.1 + 0.05, whichever is
      larger). The terms are those of the ensures of Cluster.StickOn with the seed as
      the only, hence nearest, member. */
  lemma StickOnSeed(sqrt: real -> real)
    requires Roots.IsSqrt(sqrt)
    ensures Snap(10.0, 0.0, 0.0, 0.0, 0.05 + 0.05, sqrt) == (0.1, 0.0)
    ensures Max(0.05, sqrt(SqDist(0.0, 0.0, 0.1, 0.0)) + 0.05) == 0.15
  {
    Roots.SqrtOfSquare(sqrt, 10.0);
    assert Roots.Length(sqrt, 10.0, 0.0) == 10.0;
    Roots.SqrtOfSquare(sqrt, 0.1);
    assert SqDist(0.0, 0.0, 0.1, 0.0) == 0.1 * 0.1;
  }
}
