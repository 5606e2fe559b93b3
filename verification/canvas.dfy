/** The canvas population as a whole: `init` fills the canvas with circles, a click pops at
    most one circle into a burst of particles, and each animation frame updates every circle
    and runs the particle cleanup pass. `Math.random()` results are parameters: a function
    from a draw number to the values one circle or one particle consumes. */
module Canvas {
  import opened Wrappers
  import opened Counting
  import opened Circles
  import opened Particles

  /** The circles and particles on the canvas. */
  datatype Field = Field(circles: seq<Circle>, particles: seq<Particle>)

  function Square(v: real): real {
    v * v
  }

  /** The click at `(px, py)` hits `c`: `Math.hypot(px - x, py - y) - radius < 1`, stated
      without the square root. A distance is never negative, so it is below `radius + 1`
      exactly when `radius + 1` is positive and the squared distance is below its square. */
  predicate Hit(c: Circle, px: real, py: real) {
    c.radius + 1.0 > 0.0 && Square(px - c.x) + Square(py - c.y) < Square(c.radius + 1.0)
  }

  /** `Hit` is the page's test: for the true distance `dist` (the non-negative root of the
      squared distance), the click hits exactly when `dist - radius < 1`. */
  lemma HitIsDistanceTest(c: Circle, px: real, py: real, dist: real)
    requires dist >= 0.0 && dist * dist == Square(px - c.x) + Square(py - c.y)
    ensures Hit(c, px, py) <==> dist - c.radius < 1.0
  {
    var e := c.radius + 1.0;
    if e > 0.0 {
      if dist < e {
        SquareBelow(dist, e);
      } else {
        SquareBelow(e, dist);
      }
    }
  }

  /** Squaring keeps the order of non-negative numbers. */
  lemma SquareBelow(a: real, b: real)
    requires 0.0 <= a <= b
    ensures Square(a) <= Square(b)
    ensures a < b ==> Square(a) < Square(b)
  {
    if a < b {
      SquareStrict(a, b);
    }
  }

  lemma SquareStrict(a: real, b: real)
    requires 0.0 <= a < b
    ensures a * a < b * b
  {
    PositiveProduct(b - a, b + a);
    assert b * b - a * a == (b - a) * (b + a);
  }

  lemma PositiveProduct(u: real, v: real)
    requires u > 0.0 && v > 0.0
    ensures u * v > 0.0
  {
  }

  /** The circle the click loop stops at: it scans from the last circle down, so this is the
      highest index whose circle is hit, or `None` when no circle is hit. */
  function LastHit(cs: seq<Circle>, px: real, py: real): (r: Option<nat>)
    ensures r.Some? ==> r.value < |cs| && Hit(cs[r.value], px, py)
    ensures r.Some? ==> forall j :: r.value < j < |cs| ==> !Hit(cs[j], px, py)
    ensures r.None? <==> forall j :: 0 <= j < |cs| ==> !Hit(cs[j], px, py)
    decreases |cs|
  {
    if cs == [] then None
    else if Hit(cs[|cs| - 1], px, py) then Some(|cs| - 1)
    else LastHit(cs[..|cs| - 1], px, py)
  }

  /** The particles a popped circle becomes: one per natural `j < 2 * radius`, all at the
      circle's centre and fully opaque. */
  function Burst(c: Circle, draw: nat -> Draw): (b: seq<Particle>)
    requires forall j :: ValidDraw(draw(j))
    ensures |b| == CountBelow(2.0 * c.radius)
    ensures forall j :: 0 <= j < |b| ==> b[j] == Spawn(c.x, c.y, draw(j))
  {
    seq(CountBelow(2.0 * c.radius), j requires 0 <= j => Spawn(c.x, c.y, draw(j)))
  }

  /** The canvas click handler. Scans the circles from the last to the first; at the first hit
      it pushes one particle per natural below twice the circle's radius, removes that circle
      and stops. Without a hit nothing changes. */
  method Click(cs: seq<Circle>, ps: seq<Particle>, px: real, py: real, draw: nat -> Draw)
    returns (cs': seq<Circle>, ps': seq<Particle>)
    requires forall j :: ValidDraw(draw(j))
    ensures LastHit(cs, px, py).None? ==> cs' == cs && ps' == ps
    ensures LastHit(cs, px, py).Some? ==>
              var k := LastHit(cs, px, py).value;
              && cs' == cs[..k] + cs[k + 1..]
              && ps' == ps + Burst(cs[k], draw)
    ensures |cs'| == |cs| - (if LastHit(cs, px, py).Some? then 1 else 0)
    ensures AllWellSized(cs) ==> AllWellSized(cs')
  {
    cs', ps' := cs, ps;
    var i := |cs| - 1;
    while i >= 0
      invariant -1 <= i < |cs|
      invariant forall j :: i < j < |cs| ==> !Hit(cs[j], px, py)
    {
      var circle := cs[i];
      if Hit(circle, px, py) {
        var j := 0;
        while (j as real) < circle.radius * 2.0
          invariant j <= CountBelow(2.0 * circle.radius)
          invariant |ps'| == |ps| + j && ps'[..|ps|] == ps
          invariant forall k :: 0 <= k < j ==> ps'[|ps| + k] == Spawn(circle.x, circle.y, draw(k))
          decreases CountBelow(2.0 * circle.radius) - j
        {
          ps' := ps' + [Spawn(circle.x, circle.y, draw(j))];
          j := j + 1;
        }
        assert ps' == ps + Burst(circle, draw);
        cs' := cs[..i] + cs[i + 1..];
        assert AllWellSized(cs) ==> AllWellSized(cs') by {
          if AllWellSized(cs) {
            forall k | 0 <= k < |cs'| ensures WellSized(cs'[k]) {
              if k < i { assert cs'[k] == cs[k]; } else { assert cs'[k] == cs[k + 1]; }
            }
          }
        }
        return;
      }
      i := i - 1;
    }
  }

  /** The five `Math.random()` results one new circle consumes, in source order: radius,
      horizontal and vertical position, then the two velocity components. */
  datatype CircleDraw = CircleDraw(size: real, xPos: real, yPos: real, xSign: real, ySign: real)

  predicate ValidCircleDraw(d: CircleDraw) {
    Unit(d.size) && Unit(d.xPos) && Unit(d.yPos) && Unit(d.xSign) && Unit(d.ySign)
  }

  /** `(random - 0.5) * 0.5`: a velocity component in [-0.25, 0.25). */
  function Drift(sign: real): (v: real)
    requires Unit(sign)
    ensures -0.25 <= v < 0.25
  {
    (sign - 0.5) * 0.5
  }

  /** `random * (extent - 2 * radius) + radius`: a coordinate whose circle lies within
      `[0, extent]` whenever the extent is at least the diameter. */
  function Place(pos: real, radius: real, extent: nat): (v: real)
    requires Unit(pos)
    ensures 2.0 * radius <= extent as real ==> radius <= v <= extent as real - radius
  {
    var room := extent as real - 2.0 * radius;
    var offset := pos * room;
    ScaleBelow(pos, room);
    assert room >= 0.0 ==> 0.0 <= offset <= room;
    offset + radius
  }

  lemma ScaleBelow(a: real, b: real)
    requires Unit(a)
    ensures b >= 0.0 ==> 0.0 <= a * b <= b
  {
    if b >= 0.0 {
      assert a * b <= 1.0 * b;
    }
  }

  /** One circle of `init`: radius in [2, 6), equal to its creation radius, placed inside the
      canvas when the canvas is wide and tall enough, with a slow drift. */
  function NewCircle(width: nat, height: nat, d: CircleDraw): (c: Circle)
    requires ValidCircleDraw(d)
    ensures 2.0 <= c.radius < 6.0 && c.minRadius == c.radius && WellSized(c)
    ensures 2.0 * c.radius <= width as real ==> c.radius <= c.x <= width as real - c.radius
    ensures 2.0 * c.radius <= height as real ==> c.radius <= c.y <= height as real - c.radius
    ensures -0.25 <= c.dx < 0.25 && -0.25 <= c.dy < 0.25
  {
    var radius := d.size * 4.0 + 2.0;
    assert IsNat(radius - radius);
    Circle(Place(d.xPos, radius, width), Place(d.yPos, radius, height), radius, radius,
           Drift(d.xSign), Drift(d.ySign))
  }

  /** The number of circles `init` creates for a canvas: the loop `i < height * width / 9000`
      runs once per natural below the real quotient, which is the quotient rounded up. */
  function CircleCount(width: nat, height: nat): nat {
    CountBelow((height * width) as real / 9000.0)
  }

  /** `init`: a fresh circle population, one new circle per loop step. */
  method Init(width: nat, height: nat, draw: nat -> CircleDraw) returns (cs: seq<Circle>)
    requires forall i :: ValidCircleDraw(draw(i))
    ensures |cs| == CircleCount(width, height)
    ensures forall i :: 0 <= i < |cs| ==> cs[i] == NewCircle(width, height, draw(i))
    ensures AllWellSized(cs)
    ensures cs == Population(width, height, draw)
  {
    cs := [];
    var bound := (height * width) as real / 9000.0;
    var i := 0;
    while (i as real) < bound
      invariant i <= CountBelow(bound)
      invariant |cs| == i
      invariant forall k :: 0 <= k < i ==> cs[k] == NewCircle(width, height, draw(k))
      decreases CountBelow(bound) - i
    {
      cs := cs + [NewCircle(width, height, draw(i))];
      i := i + 1;
    }
  }

  /** The circle count is the area divided by 9000 rounded up, and so exceeds the rounded-down
      quotient by one whenever 9000 does not divide the area. */
  lemma CircleCountIsCeiling(width: nat, height: nat)
    ensures CircleCount(width, height) == (width * height + 8999) / 9000
    ensures (width * height) % 9000 != 0 ==> CircleCount(width, height) == width * height / 9000 + 1
  {
    assert height * width == width * height;
    CountBelowPerNineThousand(width * height);
  }

  /** One call of `animate`: every circle updated, then the particle cleanup pass. */
  function Frame(f: Field, width: nat, height: nat, mouse: Mouse): (r: Field)
    ensures |r.circles| == |f.circles|
    ensures |r.particles| <= |f.particles|
    ensures AllWellSized(f.circles) ==> AllWellSized(r.circles)
  {
    Field(UpdateCircles(f.circles, width, height, mouse), Sweep(f.particles))
  }

  /** The population `init` builds: one `NewCircle` per loop step, the i-th from the i-th draw. */
  function Population(width: nat, height: nat, draw: nat -> CircleDraw): (cs: seq<Circle>)
    requires forall i :: ValidCircleDraw(draw(i))
  {
    seq(CircleCount(width, height), i requires 0 <= i => NewCircle(width, height, draw(i)))
  }

  /** A window resize re-runs `init`: the circles are replaced, the particles are kept. */
  function Resize(f: Field, width: nat, height: nat, draw: nat -> CircleDraw): (r: Field)
    requires forall i :: ValidCircleDraw(draw(i))
    ensures |r.circles| == CircleCount(width, height) && AllWellSized(r.circles)
    ensures forall i :: 0 <= i < |r.circles| ==> r.circles[i] == NewCircle(width, height, draw(i))
    ensures r.particles == f.particles
  {
    f.(circles := Population(width, height, draw))
  }

  /** Frames keep every circle within its radius bounds, however many run. */
  lemma {:induction false} FramesKeepRadiusBounds(f: Field, width: nat, height: nat, mice: seq<Mouse>)
    requires AllWellSized(f.circles)
    ensures AllWellSized(Frames(f, width, height, mice).circles)
    ensures |Frames(f, width, height, mice).circles| == |f.circles|
    decreases |mice|
  {
    if mice != [] {
      FramesKeepRadiusBounds(Frame(f, width, height, mice[0]), width, height, mice[1..]);
    }
  }

  /** A run of frames, one mouse position per frame. */
  function Frames(f: Field, width: nat, height: nat, mice: seq<Mouse>): Field
    decreases |mice|
  {
    if mice == [] then f else Frames(Frame(f, width, height, mice[0]), width, height, mice[1..])
  }
}
