/** The short-lived particles of a popped circle: creation from random draws, the per-frame
    `Particle.update`, and the cleanup pass of `animate`, which walks the particle array with
    `forEach` and removes dead particles with `splice` while walking. */
module Particles {

  /** Added to the vertical velocity every frame. */
  const Gravity: real := 0.05

  /** Both velocity components are multiplied by this every frame. */
  const Friction: real := 0.99

  /** Opacity lost per frame. */
  const Fade: real := 0.02

  /** A particle: centre, radius, velocity and opacity. */
  datatype Particle = Particle(x: real, y: real, radius: real, dx: real, dy: real, opacity: real)

  /** The five `Math.random()` results one particle consumes, in the order the constructor
      call evaluates them: one for the radius, then two for each velocity component. */
  datatype Draw = Draw(size: real, xSign: real, xScale: real, ySign: real, yScale: real)

  predicate Unit(v: real) {
    0.0 <= v < 1.0
  }

  /** Every draw is a value `Math.random()` can return. */
  predicate ValidDraw(d: Draw) {
    Unit(d.size) && Unit(d.xSign) && Unit(d.xScale) && Unit(d.ySign) && Unit(d.yScale)
  }

  /** One velocity component `(random - 0.5) * (random * 6)`. */
  function Kick(sign: real, scale: real): (v: real)
    requires Unit(sign) && Unit(scale)
    ensures -3.0 < v < 3.0
  {
    var a, b := sign - 0.5, scale * 6.0;
    ProductBound(a, b);
    a * b
  }

  lemma ProductBound(a: real, b: real)
    requires -0.5 <= a < 0.5 && 0.0 <= b < 6.0
    ensures -3.0 < a * b < 3.0
  {
    if a >= 0.0 {
      assert a * b <= 0.5 * b;
    } else {
      assert a * b >= -0.5 * b;
    }
  }

  /** `new Particle(x, y, random * 2 + 1, kick, kick)`: a fully opaque particle at `(x, y)`
      with radius in [1, 3) and each velocity component in (-3, 3). */
  function Spawn(x: real, y: real, d: Draw): (p: Particle)
    requires ValidDraw(d)
    ensures p.x == x && p.y == y && p.opacity == 1.0
    ensures 1.0 <= p.radius < 3.0
    ensures -3.0 < p.dx < 3.0 && -3.0 < p.dy < 3.0
  {
    Particle(x, y, d.size * 2.0 + 1.0, Kick(d.xSign, d.xScale), Kick(d.ySign, d.yScale), 1.0)
  }

  /** `Particle.update`: friction on both components, then gravity on the vertical one, then
      move, then fade. */
  function UpdateParticle(p: Particle): (r: Particle)
    ensures r.opacity == p.opacity - Fade && r.opacity < p.opacity
    ensures r.radius == p.radius
    ensures r.dx == p.dx * Friction && r.dy == p.dy * Friction + Gravity
    ensures r.x - p.x == r.dx && r.y - p.y == r.dy
  {
    var dx := p.dx * Friction;
    var dy := p.dy * Friction + Gravity;
    Particle(p.x + dx, p.y + dy, p.radius, dx, dy, p.opacity - Fade)
  }

  /** The particle after `n` updates. */
  function UpdateParticleN(p: Particle, n: nat): Particle
    decreases n
  {
    if n == 0 then p else UpdateParticleN(UpdateParticle(p), n - 1)
  }

  /** Each update lowers the opacity by exactly `Fade`, so after `n` updates it has dropped by
      `n * Fade`. */
  lemma {:induction false} OpacityAfterUpdates(p: Particle, n: nat)
    ensures UpdateParticleN(p, n).opacity == p.opacity - n as real * Fade
    decreases n
  {
    if n > 0 {
      OpacityAfterUpdates(UpdateParticle(p), n - 1);
    }
  }

  /** A freshly spawned particle stays visible for exactly 50 updates. */
  lemma FreshLifetime(p: Particle, n: nat)
    requires p.opacity == 1.0
    ensures UpdateParticleN(p, n).opacity > 0.0 <==> n < 50
  {
    OpacityAfterUpdates(p, n);
  }

  /** The cleanup test: a particle whose opacity reached zero is removed. */
  predicate Dead(p: Particle) {
    p.opacity <= 0.0
  }

  /** The cleanup pass as the page runs it. Walking forward, a dead particle is spliced out,
      which moves its successor into the slot just visited; the walk then moves on, so that
      successor is neither removed nor updated in this frame. A live particle is updated in
      place. */
  function Sweep(ps: seq<Particle>): (r: seq<Particle>)
    ensures |r| <= |ps|
    decreases |ps|
  {
    if ps == [] then []
    else if !Dead(ps[0]) then [UpdateParticle(ps[0])] + Sweep(ps[1..])
    else if |ps| == 1 then []
    else [ps[1]] + Sweep(ps[2..])
  }

  /** The cleanup pass as intended: every dead particle removed, every live one updated. */
  function Filter(ps: seq<Particle>): (r: seq<Particle>)
    ensures |r| <= |ps|
    ensures forall k :: 0 <= k < |r| ==> r[k].opacity > -Fade
    decreases |ps|
  {
    if ps == [] then []
    else if Dead(ps[0]) then Filter(ps[1..])
    else [UpdateParticle(ps[0])] + Filter(ps[1..])
  }

  /** The array as the cleanup walk will leave it, seen from walk position `index`: the part
      already walked stays, the rest is swept. Past the end, the walk is over. */
  function Outcome(arr: seq<Particle>, index: nat): seq<Particle> {
    if index <= |arr| then arr[..index] + Sweep(arr[index..]) else arr
  }

  /** One step of the cleanup walk. */
  function WalkStep(arr: seq<Particle>, index: nat): seq<Particle>
    requires index < |arr|
  {
    if Dead(arr[index]) then arr[..index] + arr[index + 1..]
    else arr[index := UpdateParticle(arr[index])]
  }

  /** A step of the walk followed by moving on to the next index leaves the final outcome
      unchanged. */
  lemma WalkStepKeepsOutcome(arr: seq<Particle>, index: nat)
    requires index < |arr|
    ensures Outcome(WalkStep(arr, index), index + 1) == Outcome(arr, index)
  {
    var next := WalkStep(arr, index);
    if Dead(arr[index]) {
      if index + 1 < |arr| {
        assert arr[index..][2..] == arr[index + 2..];
        assert next[..index + 1] == arr[..index] + [arr[index + 1]];
        assert next[index + 1..] == arr[index + 2..];
      } else {
        assert next == arr[..index];
      }
    } else {
      assert arr[index..][1..] == arr[index + 1..];
      assert next[..index + 1] == arr[..index] + [UpdateParticle(arr[index])];
      assert next[index + 1..] == arr[index + 1..];
    }
  }

  /** `particles.forEach((particle, index) => ...)` with `splice(index, 1)` on dead particles,
      written as the index walk it performs. `forEach` fixes its bound when it starts but skips
      indices the array no longer has, so the walk stops at the current end of the array. */
  method Cleanup(ps: seq<Particle>) returns (arr: seq<Particle>)
    ensures arr == Sweep(ps)
  {
    arr := ps;
    var index := 0;
    assert arr[..0] == [] && arr[0..] == arr;
    while index < |arr|
      invariant index <= |arr| + 1
      invariant Outcome(arr, index) == Sweep(ps)
      decreases |arr| - index + 1
    {
      WalkStepKeepsOutcome(arr, index);
      if Dead(arr[index]) {
        arr := arr[..index] + arr[index + 1..];
      } else {
        arr := arr[index := UpdateParticle(arr[index])];
      }
      index := index + 1;
    }
    if index == |arr| {
      assert arr[..index] == arr && arr[index..] == [];
    }
  }

  /** The number of live particles. */
  function LiveCount(ps: seq<Particle>): (n: nat)
    ensures n <= |ps|
    decreases |ps|
  {
    if ps == [] then 0 else (if Dead(ps[0]) then 0 else 1) + LiveCount(ps[1..])
  }

  /** The intended pass keeps exactly the live particles, each updated once: as many
      particles as are live, and each survivor is the update of a live particle and each
      live particle's update survives. */
  lemma {:induction false} FilterKeepsLive(ps: seq<Particle>)
    ensures |Filter(ps)| == LiveCount(ps)
    ensures forall r :: r in Filter(ps) <==> exists p :: p in ps && !Dead(p) && r == UpdateParticle(p)
    decreases |ps|
  {
    if ps != [] {
      FilterKeepsLive(ps[1..]);
      forall r | r in Filter(ps)
        ensures exists p :: p in ps && !Dead(p) && r == UpdateParticle(p)
      {
        if !Dead(ps[0]) && r == UpdateParticle(ps[0]) {
        } else {
          assert r in Filter(ps[1..]);
          var p :| p in ps[1..] && !Dead(p) && r == UpdateParticle(p);
          assert p in ps;
        }
      }
      forall p | p in ps && !Dead(p)
        ensures UpdateParticle(p) in Filter(ps)
      {
        if p != ps[0] {
          var k :| 0 <= k < |ps| && ps[k] == p;
          assert p in ps[1..] by { assert ps[1..][k - 1] == p; }
        }
      }
    }
  }

  /** The page's pass never drops a live particle: each live particle is still there,
      updated or, when it followed a dead one, untouched. The pass keeps at least as many
      particles as are live, and it removes at least one particle whenever a dead one is
      present (the first dead particle is always reached). */
  lemma {:induction false} SweepBounds(ps: seq<Particle>)
    ensures LiveCount(ps) <= |Sweep(ps)| <= |ps|
    ensures forall p :: p in ps && !Dead(p) ==> p in Sweep(ps) || UpdateParticle(p) in Sweep(ps)
    ensures (exists k :: 0 <= k < |ps| && Dead(ps[k])) ==> |Sweep(ps)| < |ps|
    decreases |ps|
  {
    if ps != [] {
      SweepBounds(ps[1..]);
      if |ps| >= 2 {
        SweepBounds(ps[2..]);
      }
      forall p | p in ps && !Dead(p)
        ensures p in Sweep(ps) || UpdateParticle(p) in Sweep(ps)
      {
        var k :| 0 <= k < |ps| && ps[k] == p;
        if !Dead(ps[0]) {
          if k > 0 {
            assert p in ps[1..] by { assert ps[1..][k - 1] == p; }
          }
        } else if k >= 2 {
          assert p in ps[2..] by { assert ps[2..][k - 2] == p; }
        }
      }
      if |ps| >= 2 {
        assert LiveCount(ps[1..]) <= 1 + LiveCount(ps[2..]) by {
          assert ps[1..][1..] == ps[2..];
        }
      }
      if !Dead(ps[0]) && (exists k :: 0 <= k < |ps| && Dead(ps[k])) {
        var k :| 0 <= k < |ps| && Dead(ps[k]);
        assert Dead(ps[1..][k - 1]);
      }
    }
  }

  /** Everything the page's pass leaves is either a particle carried over untouched or the
      update of a live particle: opacity never rises. */
  lemma {:induction false} SweepOnlyFades(ps: seq<Particle>)
    ensures forall r :: r in Sweep(ps) ==> r in ps || exists p :: p in ps && !Dead(p) && r == UpdateParticle(p)
    decreases |ps|
  {
    if ps != [] {
      if !Dead(ps[0]) {
        SweepOnlyFades(ps[1..]);
      } else if |ps| > 1 {
        SweepOnlyFades(ps[2..]);
        assert forall p :: p in ps[2..] ==> p in ps;
      }
    }
  }

  /** The page's pass agrees with the intended one exactly when no particle other than the
      last is dead: a dead particle with a successor makes that successor escape the pass. */
  lemma {:induction false} SweepMatchesFilterIff(ps: seq<Particle>)
    ensures Sweep(ps) == Filter(ps) <==> forall k :: 0 <= k < |ps| - 1 ==> !Dead(ps[k])
    decreases |ps|
  {
    if ps != [] {
      SweepMatchesFilterIff(ps[1..]);
      if !Dead(ps[0]) {
        var u := UpdateParticle(ps[0]);
        assert ([u] + Sweep(ps[1..]) == [u] + Filter(ps[1..])) <==> Sweep(ps[1..]) == Filter(ps[1..]) by {
          if [u] + Sweep(ps[1..]) == [u] + Filter(ps[1..]) {
            assert Sweep(ps[1..]) == ([u] + Sweep(ps[1..]))[1..];
          }
        }
        assert (forall k :: 0 <= k < |ps| - 1 ==> !Dead(ps[k])) <==>
               (forall k :: 0 <= k < |ps[1..]| - 1 ==> !Dead(ps[1..][k])) by {
          if forall k :: 0 <= k < |ps[1..]| - 1 ==> !Dead(ps[1..][k]) {
            forall k | 0 <= k < |ps| - 1 ensures !Dead(ps[k]) {
              if k > 0 { assert ps[k] == ps[1..][k - 1]; }
            }
          }
        }
      } else if |ps| > 1 {
        SweepBounds(ps[2..]);
        FilterKeepsLive(ps[1..]);
        assert LiveCount(ps[1..]) <= 1 + LiveCount(ps[2..]) by {
          assert ps[1..][1..] == ps[2..];
        }
        if Dead(ps[1]) {
          assert |Sweep(ps)| > |Filter(ps)|;
        } else {
          assert Filter(ps[1..])[0] == UpdateParticle(ps[1]);
          assert Sweep(ps)[0] == ps[1];
        }
      }
    }
  }

  /** Two dead particles side by side: the pass removes the first and leaves the second in
      place, still dead, until a later frame. */
  lemma SkippedDeadSurvives(a: Particle, b: Particle)
    requires Dead(a) && Dead(b)
    ensures Sweep([a, b]) == [b]
    ensures Filter([a, b]) == []
  {
    assert [a, b][2..] == [];
    assert [a, b][1..] == [b];
    assert [b][1..] == [];
  }
}
