# Diffusion-limited aggregation: particles and the cluster they stick onto

This project models `app/dla.js`, the aggregation core of a Witten–Sanders (1981)
style diffusion-limited aggregation simulator, in Dafny, and proves properties of it.

- A `Particle` is a disk with a centre `(x, y)` and a `radius`.
  - `step(n)` moves it by random-walk steps.
  - `distanceSquared` and `distance` measure how far apart two centres are.
  - `stickTo(p)` moves it along the ray from `p`'s centre until the two disks touch.
- A `Cluster` is an insertion-ordered, append-only list of particles. The seed sits at index 0.
  - `size` is a redundant count of the members.
  - `radius` and `radiusSquared` hold the radius, and its square, of the smallest circle about the seed that contains every member.
  - `add(p)` appends `p` without moving it and widens that circle.
  - `stickOn(p)` does three things:
    1. It scans the members for the one nearest to `p`. The scan starts from the sentinel `Number.MAX_SAFE_INTEGER`, and the earliest member wins a tie.
    2. It sticks `p` onto that member.
    3. It adds `p` to the cluster.

Files:

- `roots.dfy` (module `Roots`) holds the square root the model uses for `Math.sqrt`.
  - Dafny's reals have no square root, so the caller passes `sqrt` in as a function value.
  - The requirement `IsSqrt(sqrt)` says that `sqrt` returns the non-negative root of every non-negative number.
  - The module also holds the small facts about squares that the other proofs use.
- `scan.dfy` (module `Scan`) models the nearest-member scan on the list of squared distances alone.
  - `ArgMin` is the scan as a recursive function.
  - Lemmas prove that its choice is the first index holding the least distance below the sentinel, and that no index is chosen exactly when no distance is below it.
- `dla.dfy` (module `Dla`) holds everything else:
  - the classes `Particle` and `Cluster`, whose methods update their fields in place;
  - the geometry of `stickTo`, as the pure function `Snap` and lemmas about it;
  - the random walk, as the function `Walk` over a sequence of headings;
  - the cluster invariant `Cluster.Valid`:
    - the seed is at index 0;
    - `size` equals the number of members;
    - `radiusSquared` equals `radius * radius`;
    - the circle about the seed encloses every member, stated without square roots by `Encloses`;
    - the circle passes through the far edge of the member at the ghost index `farthest` (`Attains`), so `radius` is the largest distance from the seed's centre to a member's far edge.

`distanceSquared` and `distance` are Dafny functions that only read the two particles, so they cannot change either one.

## Model

| member | source | states |
|---|---|---|
| Dla.Particle.constructor | app/dla.js:6-10 | The new particle has exactly the given centre and radius. |
| Dla.Particle.Step | app/dla.js:12-17 | The particle makes one move, plus n - 1 more when n > 1. Its new centre is the walk of StepSize moves along the supplied headings, in order. Its radius is unchanged. |
| Dla.WalkDisplacement | app/dla.js:12-17 | A walk moves the centre by StepSize times the summed headings. Each move is independent of the ones before it. |
| Dla.WalkAppend | app/dla.js:16 | One walk followed by another equals a single walk along the concatenated headings, as in the recursive call step(n - 1). |
| Dla.OneMoveLength | app/dla.js:2-15 | A move along a unit heading (cos θ, sin θ) covers exactly stepSize, which is 1 and is not scaled by the radius. |
| Dla.Particle.DistanceSquared | app/dla.js:19-23 | The squared distance is non-negative. It is 0 when the centres coincide and positive when they differ (proved for all points by `Dla.SqDistSign`). |
| Dla.SqDistSymmetric | app/dla.js:19-23 | The squared distance from a to b equals the squared distance from b to a. |
| Dla.DistanceIsRoot | app/dla.js:25-27 | `Dla.Particle.Distance`, the model of distance, is the non-negative square root of distanceSquared. It is 0 exactly when the centres coincide. |
| Dla.Particle.StickTo | app/dla.js:29-35 | The new centre is p's centre plus the vector from p to the old centre, rescaled to this.radius + p.radius. The radius is unchanged, and p is unchanged. |
| Dla.SetLengthGeometry | app/dla.js:31-32 | Vector2.setLength(len) gives a vector of length \|len\| that is parallel to the original. When len >= 0 it points the same way. |
| Dla.SnapGeometry | app/dla.js:29-35 | The snapped centre lies on the ray from p's centre through the old centre, at distance \|len\| from p's centre. |
| Dla.SnapTouches | app/dla.js:29-35 | When len >= 0, the distance from the snapped centre to p's centre is exactly len. |
| Dla.SnappedTouches | app/dla.js:29-35 | After stickTo, distance(this, p) equals this.radius + p.radius, so the two disks touch. |
| Dla.Cluster.constructor | app/dla.js:45-51 | The new cluster has exactly one, fresh particle with the given centre and radius. size is 1, radius is r, radiusSquared is r * r, and the invariant holds. |
| Dla.Cluster.Add | app/dla.js:53-64 | p is appended unmoved and earlier members are unchanged. size grows by 1. radius becomes max(old radius, distance(seed, p) + p.radius), so it never decreases. The invariant is preserved, including radiusSquared == radius * radius. |
| Dla.EnclosesAppend | app/dla.js:56-63 | A circle widened to reach p's far edge still encloses every earlier member and also encloses p. |
| Dla.EnclosesMeansWithin | app/dla.js:59-60 | The square-root-free containment Encloses holds exactly when distance(seed, q) + q.radius <= R. |
| Dla.EnclosesGrow | app/dla.js:60-63 | A larger circle about the same centre still encloses everything the smaller one did. |
| Dla.WithinRadius | app/dla.js:49-63 | In a valid cluster, distance(seed, q) + q.radius <= radius holds for every member q. |
| Dla.RadiusReached | app/dla.js:49-63 | In a valid cluster some member q has distance(seed, q) + q.radius == radius. With WithinRadius, radius is the largest such distance, so the circle is the smallest one about the seed that holds every member. |
| Dla.AttainsMeansReaches | app/dla.js:59-63 | The square-root-free Attains holds exactly when distance(seed, q) + q.radius == R. |
| Dla.SquaredDistanceAt | app/dla.js:71-72 | Entry i of the scanned distances is p.distanceSquared(particles[i]). |
| Scan.ArgMin | app/dla.js:68-77 | The chosen index is in range, and its distance is below the MAX_SAFE_INTEGER sentinel. |
| Scan.ArgMinNone | app/dla.js:69-77 | The scan chooses nothing exactly when no distance is below the sentinel. |
| Scan.ArgMinSome | app/dla.js:69-77 | The scan chooses a member as soon as one distance is below the sentinel. |
| Scan.ArgMinIsFirstMin | app/dla.js:71-76 | The chosen index holds the least distance. Every earlier index is strictly farther, because the strict < keeps the first of equal distances. |
| Scan.FirstMinUnique | app/dla.js:71-76 | At most one index is the first least one, so the choice is determined by the distances. |
| Scan.ArgMinIsTheFirstMin | app/dla.js:71-76 | Any first least index below the sentinel is exactly the scan's choice. |
| Dla.Cluster.NearestParticle | app/dla.js:68-77 | The loop ends with the member ArgMin picks and that member's squared distance. If no distance is below the sentinel, it ends with null and MAX_SAFE_INTEGER. |
| Dla.Cluster.StickOn | app/dla.js:66-82 | k is the index ArgMin picks from the squared distances before the call. p is snapped against member k with the radii sum, and then appended. size grows by 1, radius is the running maximum from add, p's radius is unchanged, and the invariant is preserved. |
| Dla.StickOnSeed | app/dla.js:45-82 | The example: seed of radius 0.05 at the origin, particle of radius 0.05 at (10, 0). The particle is moved to (0.1, 0), and the cluster radius becomes 0.15. |

## Left out

- `app/main.js` is not part of this model. It is rendering, the animation loop and keyboard handling, with no aggregation logic.
- Randomness and trigonometry in `step`: `Math.random`, `Math.cos`, `Math.sin` and `Math.PI`.
  - Dla.Particle.Step takes the headings, the pairs (cos θ, sin θ), as an input sequence.
  - Step itself does not require them to be unit vectors.
  - OneMoveLength states what a unit heading gives.
- `Math.sqrt` is the parameter `sqrt`, constrained by `Roots.IsSqrt`.
- IEEE-754 doubles are modelled as exact reals, so nothing is rounded.
  - `Number.MAX_SAFE_INTEGER` is the real constant `MaxSafeInteger`.
  - Consequently `Dla.StickOnSeed` gets exactly (0.1, 0) and 0.15.
- THREE is not part of this model.
  - `Vector2.setLength` is modelled by its effect: divide by the vector's length, then multiply by the requested length.
  - The library's behaviour on a zero-length vector is not visible, so that case is excluded, as the next two entries describe.
- Dla.Particle.StickTo requires the two centres to differ. That excludes the zero-length vector case of `setLength`.
- Dla.Cluster.StickOn has two requirements:
  - `p`'s centre differs from every member's centre. This excludes the case above, and it also means `p` is not already a member.
  - Some member is nearer than `MAX_SAFE_INTEGER` squared units. Otherwise the source passes `null` to `stickTo`, which throws.
- Dla.Particle.Distance carries no ensures of its own. Its properties are stated by `Dla.DistanceIsRoot`, which keeps the square root out of the proofs that do not need it.
- Dla.Particle.StickTo states where the centre goes, through `SnappedTo`. That the disks then touch, and that the centre is on the ray, are the separate lemmas `Dla.SnappedTouches` and `Dla.SnapGeometry`.
- Default arguments (`x = 0`, `y = 0`, `radius = 0.05`, `n = 1`) are not modelled. Every model constructor and method takes all of its arguments explicitly.
- Dla.StickOnSeed states the example with the pure functions that the contract of `StickOn` uses (`Snap`, `SqDist`, `Max`). It does not run the methods on objects.
- Radii are not validated: the code accepts any radius, and so does the model.
- Dla.Particle.Step takes n as an integer. In the code n is any number, and a fractional n > 1 makes ⌈n⌉ moves (`step(2.5)` recurses on 1.5 and then 0.5).
