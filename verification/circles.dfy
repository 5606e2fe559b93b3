/** The bouncing circles of the background canvas and their per-frame update
    (`Circle.update` without the drawing). Coordinates are `real`; the canvas size is the
    pair of natural numbers `canvas.width` and `canvas.height`. */
module Circles {
  import opened Wrappers

  /** `maxRadius`: a circle near the mouse grows while its radius is below this. */
  const MaxRadius: real := 30.0

  /** Half the side of the square around a circle's centre in which the mouse makes it grow. */
  const Reach: real := 50.0

  /** A circle: centre, current radius, the radius it was created with, and velocity. */
  datatype Circle = Circle(x: real, y: real, radius: real, minRadius: real, dx: real, dy: real)

  /** The last mouse position, or `None` before the first mouse move (the page's
      `undefined` coordinates, with which every proximity comparison is false). */
  type Mouse = Option<(real, real)>

  function Abs(v: real): real {
    if v < 0.0 then -v else v
  }

  /** `r` is a natural number. */
  predicate IsNat(r: real) {
    r >= 0.0 && r.Floor as real == r
  }

  /** The radius invariant: the circle has grown a whole number of unit steps above its
      creation radius, and is below `MaxRadius + 1`. Growth is checked before adding 1, so a
      radius that is not a whole number can end up above `MaxRadius`, though never by a
      whole unit. */
  predicate WellSized(c: Circle) {
    IsNat(c.radius - c.minRadius) && c.radius < MaxRadius + 1.0
  }

  /** Whole numbers stay whole when one is added or, above zero, subtracted. */
  lemma IsNatStep(a: real)
    ensures IsNat(a) ==> IsNat(a + 1.0)
    ensures IsNat(a) && a > 0.0 ==> a >= 1.0 && IsNat(a - 1.0)
  {
    if IsNat(a) {
      var n := a.Floor;
      assert (a + 1.0).Floor == n + 1;
      if a > 0.0 {
        assert n >= 1;
        assert (a - 1.0).Floor == n - 1;
      }
    }
  }

  /** The circle's edge lies beyond the left or right side of the canvas. */
  predicate OutsideX(c: Circle, width: nat) {
    c.x + c.radius > width as real || c.x - c.radius < 0.0
  }

  /** The circle's edge lies beyond the top or bottom side of the canvas. */
  predicate OutsideY(c: Circle, height: nat) {
    c.y + c.radius > height as real || c.y - c.radius < 0.0
  }

  /** The mouse lies strictly inside the square of half side `Reach` around `(x, y)`. */
  predicate Near(mouse: Mouse, x: real, y: real) {
    match mouse
    case None => false
    case Some((mx, my)) => -Reach < mx - x < Reach && -Reach < my - y < Reach
  }

  /** The radius rule: one unit up when the mouse is near and the radius is below the
      maximum, one unit down when the mouse is away and the circle is larger than at
      creation, otherwise unchanged. */
  function NextRadius(radius: real, minRadius: real, near: bool): (r: real)
    ensures IsNat(radius - minRadius) && radius < MaxRadius + 1.0 ==>
              IsNat(r - minRadius) && r < MaxRadius + 1.0
    ensures r > radius <==> near && radius < MaxRadius
    ensures r < radius <==> !near && radius > minRadius
    ensures r == radius || r == radius + 1.0 || r == radius - 1.0
  {
    IsNatStep(radius - minRadius);
    if near then
      (if radius < MaxRadius then radius + 1.0 else radius)
    else if radius > minRadius then radius - 1.0
    else radius
  }

  /** `Circle.update`: bounce off the walls (reverse a velocity component when the edge is
      outside the canvas on that axis), move by the velocity, then grow or shrink by the
      mouse distance measured from the new centre. */
  function UpdateCircle(c: Circle, width: nat, height: nat, mouse: Mouse): (r: Circle)
    ensures r.minRadius == c.minRadius
    ensures Abs(r.dx) == Abs(c.dx) && Abs(r.dy) == Abs(c.dy)
    ensures r.dx == (if OutsideX(c, width) then -c.dx else c.dx)
    ensures r.dy == (if OutsideY(c, height) then -c.dy else c.dy)
    ensures r.x == c.x + r.dx && r.y == c.y + r.dy
    ensures WellSized(c) ==> WellSized(r) && c.minRadius <= r.radius
    ensures r.radius > c.radius <==> Near(mouse, r.x, r.y) && c.radius < MaxRadius
    ensures r.radius < c.radius <==> !Near(mouse, r.x, r.y) && c.radius > c.minRadius
  {
    var dx := if OutsideX(c, width) then -c.dx else c.dx;
    var dy := if OutsideY(c, height) then -c.dy else c.dy;
    var x, y := c.x + dx, c.y + dy;
    Circle(x, y, NextRadius(c.radius, c.minRadius, Near(mouse, x, y)), c.minRadius, dx, dy)
  }

  /** Every circle keeps the radius invariant. */
  ghost predicate AllWellSized(cs: seq<Circle>) {
    forall k :: 0 <= k < |cs| ==> WellSized(cs[k])
  }

  /** The `circles.forEach(circle => circle.update())` pass of one frame. */
  function UpdateCircles(cs: seq<Circle>, width: nat, height: nat, mouse: Mouse): (r: seq<Circle>)
    ensures |r| == |cs|
    ensures forall k :: 0 <= k < |cs| ==> r[k] == UpdateCircle(cs[k], width, height, mouse)
    ensures AllWellSized(cs) ==> AllWellSized(r)
  {
    seq(|cs|, k requires 0 <= k < |cs| => UpdateCircle(cs[k], width, height, mouse))
  }

  /** The circle after `n` frames with the same canvas and mouse. */
  function UpdateCircleN(c: Circle, width: nat, height: nat, mouse: Mouse, n: nat): Circle
    decreases n
  {
    if n == 0 then c else UpdateCircleN(UpdateCircle(c, width, height, mouse), width, height, mouse, n - 1)
  }

  /** With no mouse on the page a grown circle shrinks back one unit per frame and then
      stays at its creation radius. */
  lemma {:induction false} ShrinksBackWithoutMouse(c: Circle, width: nat, height: nat, n: nat)
    requires WellSized(c)
    ensures var r := UpdateCircleN(c, width, height, None, n);
            && r.minRadius == c.minRadius
            && r.radius == if c.radius - n as real > c.minRadius then c.radius - n as real else c.minRadius
    decreases n
  {
    if n > 0 {
      var c' := UpdateCircle(c, width, height, None);
      ShrinksBackWithoutMouse(c', width, height, n - 1);
      IsNatStep(c.radius - c.minRadius);
    }
  }

  /** With the mouse resting near a circle that keeps within reach of it, the circle grows
      one unit per frame until it passes `MaxRadius - 1`, and never reaches `MaxRadius + 1`. */
  lemma {:induction false} GrowsUnderMouse(c: Circle, width: nat, height: nat, mouse: Mouse, n: nat)
    requires WellSized(c)
    requires forall k :: 0 <= k < n ==>
               var ck := UpdateCircleN(c, width, height, mouse, k);
               var ck' := UpdateCircle(ck, width, height, mouse);
               Near(mouse, ck'.x, ck'.y)
    ensures var r := UpdateCircleN(c, width, height, mouse, n);
            && WellSized(r)
            && (c.radius + n as real <= MaxRadius ==> r.radius == c.radius + n as real)
    decreases n
  {
    if n > 0 {
      var c' := UpdateCircle(c, width, height, mouse);
      forall k | 0 <= k < n - 1
        ensures var ck := UpdateCircleN(c', width, height, mouse, k);
                var ck' := UpdateCircle(ck, width, height, mouse);
                Near(mouse, ck'.x, ck'.y)
      {
        assert UpdateCircleN(c', width, height, mouse, k) == UpdateCircleN(c, width, height, mouse, k + 1);
      }
      assert Near(mouse, c'.x, c'.y) by {
        assert UpdateCircleN(c, width, height, mouse, 0) == c;
      }
      GrowsUnderMouse(c', width, height, mouse, n - 1);
    }
  }
}
