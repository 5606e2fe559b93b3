# staticfolio page logic in Dafny

This project models the two pieces of sequential state logic in the page script of the
staticfolio portfolio (`scripts/main.js`). It leaves out the DOM and canvas wiring.

- **Timeline narrator** (`narrator.dfy`). A click on a timeline year marks that year's
  span active and shows its story. The first time, the story is typed out one character
  per timer tick. After that, it appears whole. An `isTyping` lock rejects clicks while
  a reveal runs. The `setTimeout(type, 40)` chain is replaced by explicit `Tick` events.
  The DOM state becomes plain data: the `active` flag of each span, the subtitle text,
  the `animatedYears` set, and the typewriter phase (`Idle`, `Typing(year, text, i)`,
  `Stalled`).
- **Particle field** (`circles.dfy`, `particles.dfy`, `canvas.dfy`). This covers the
  per-frame circle update (wall bounce, moving, and growing or shrinking near the mouse),
  the click that pops one circle into particles, the per-frame particle update, the
  forward `forEach`+`splice` cleanup pass, and the circle count of `init`. Coordinates
  are `real`. The canvas size is a pair of naturals. A mouse that has not moved yet is
  `None`.
- `counting.dfy` counts the iterations of a JavaScript loop `for (j = 0; j < b; j++)`
  when `b` is a real number. `wrappers.dfy` holds `Option` and a map lookup.

The model follows the code, including where it departs from what the page evidently intends:

- `init` creates `ceil(width * height / 9000)` circles, not the rounded-down quotient.
  The loop test `i < h * w / 9000` compares against the real quotient.
- A popped circle yields `ceil(2 * radius)` particles, not `2 * radius`. Radii are not
  whole numbers, and the loop test is `j < radius * 2`.
- In exact arithmetic a circle's radius stays below `maxRadius + 1`, not at or below `maxRadius`. Growth is
  checked (`radius < maxRadius`) before 1 is added, so a radius of 29.5 grows to 30.5.
- A timeline year without a story locks the narrator for good (`Stalled`). `typewriter`
  takes the lock and clears the subtitle before `text.length` fails on `undefined`, and
  nothing ever releases the lock.
- The cleanup pass keeps its known defect. The particle after a removed one is neither
  removed nor updated in that frame. `Sweep` models the pass as written, and `Filter` is
  the intended pass. `SweepMatchesFilterIff` says exactly when the two agree.

## Model

| member | source | states |
|---|---|---|
| `Narrator.Type` | scripts/main.js:27-37 | A step before the end appends exactly `text[i]` to the subtitle and advances `i`. The step at `i = |text|` releases the lock, leaves the subtitle alone and adds the year to the animated set. |
| `Narrator.Typewriter` | scripts/main.js:20-39 | While locked it changes nothing. Otherwise it clears the subtitle and runs the first step at once. An empty text completes at once. A missing text leaves the lock set (`Stalled`). |
| `Narrator.UpdateContent` | scripts/main.js:41-55 | While locked it changes nothing. Otherwise a span is active iff its year equals `year`. An animated year shows its whole story and stays `Idle`. A new year with a non-empty story starts a reveal showing its first character, one with an empty story completes at once, and one without a story leaves the lock stuck with an empty subtitle. |
| `Narrator.ApplyPreservesInv` | scripts/main.js:17-55 | Every click or tick keeps the invariant. A running reveal belongs to a not-yet-animated year with a story, `i <= |text|`, and the subtitle equals `text[..i]`. Only years with stories are animated. |
| `Narrator.RunPreservesInv` | scripts/main.js:17-64 | The invariant holds after any sequence of clicks and ticks. |
| `Narrator.BootInv` | scripts/main.js:64 | The state after the page-load selection of 2016 satisfies the invariant. |
| `Narrator.RunAnimatedGrows` | scripts/main.js:17 | Over any sequence of events the animated set only grows. |
| `Narrator.AddedOnlyWhenFullyTyped` | scripts/main.js:33-35 | A year enters the animated set only when its reveal completes. At that point the lock is free and the subtitle equals that year's whole story. |
| `Narrator.SelectWhileTypingIgnored` | scripts/main.js:42 | While the lock is held, any number of clicks leaves the state unchanged: active marker, subtitle, animated set and running reveal. |
| `Narrator.StalledIsAbsorbing` | scripts/main.js:21-28 | Once the lock is stuck without a pending step, no later event changes anything. |
| `Narrator.RevealCompletes` | scripts/main.js:26-37 | From any reveal state, `|text| - i + 1` ticks release the lock. The subtitle then equals the full story, the year is animated, and the active marker is unchanged. |
| `Narrator.HighlightCount` | scripts/main.js:44-46 | With distinct span years, toggling marks exactly one span if the year is on the timeline, and none otherwise. |
| `Narrator.ExactlyOneActive` | scripts/main.js:44-46 | After an accepted selection of a timeline year with distinct span years, exactly one span is active. |
| `Narrator.PageScenario` | scripts/main.js:2-64 | On page load the 2016 story is typed in full after one tick per character. A later click on 2025 marks only the 2025 span and types "Rebuilding. Slower, stronger." in full. |
| `Counting.CountBelow` | scripts/main.js:135 | The count `n` satisfies `b <= n`, and `n - 1 < b` when `n > 0`. So it is the number of naturals below `b`. |
| `Counting.CountingLoop` | scripts/main.js:236 | A loop from 0 that steps by 1 while its counter is below `b` runs exactly `CountBelow(b)` times. |
| `Counting.CountBelowPerNineThousand` | scripts/main.js:235-236 | For a natural `a`, the loop bound `a / 9000` gives the rounded-up quotient. That is one more than the rounded-down quotient when 9000 does not divide `a`. |
| `Circles.NextRadius` | scripts/main.js:183-192 | The radius rises iff the mouse is near and the radius is below 30. It falls iff the mouse is away and the radius is above `minRadius`. It changes by at most one unit and keeps "whole steps above `minRadius`, below 31". |
| `Circles.UpdateCircle` | scripts/main.js:169-195 | Each velocity component flips sign exactly when the edge is outside on that axis, so its magnitude is unchanged. The centre moves by the new velocity. `minRadius` is kept, and the radius invariant is preserved. |
| `Circles.UpdateCircles` | scripts/main.js:250-252 | The frame's circle pass updates every circle in place, keeps the count and preserves the radius invariant of all circles. |
| `Circles.ShrinksBackWithoutMouse` | scripts/main.js:190-192 | With no mouse, after `n` frames the radius is `max(minRadius, radius - n)`. |
| `Circles.GrowsUnderMouse` | scripts/main.js:183-189 | With the mouse near for `n` frames, the radius grows by `n` while it stays at or below 30. The radius invariant holds throughout. |
| `Particles.Kick` | scripts/main.js:141-142 | A velocity component drawn as `(random - 0.5) * (random * 6)` lies in (-3, 3). |
| `Particles.Spawn` | scripts/main.js:136-143 | A new particle sits at the given centre, is fully opaque, and has radius in [1, 3) and velocity components in (-3, 3). |
| `Particles.UpdateParticle` | scripts/main.js:220-230 | Friction scales both velocity components by 0.99, then gravity adds 0.05 to the vertical one. The centre moves by the new velocity, opacity drops by exactly 0.02, and the radius is kept. |
| `Particles.OpacityAfterUpdates` | scripts/main.js:227 | After `n` updates the opacity has dropped by exactly `0.02 * n`. |
| `Particles.FreshLifetime` | scripts/main.js:205 | A fully opaque particle is still visible after `n` updates iff `n < 50`. |
| `Particles.Sweep` | scripts/main.js:254-260 | The page's cleanup pass never lengthens the array. Its behaviour is stated by the lemmas below. |
| `Particles.Filter` | scripts/main.js:254-260 | The intended cleanup pass never lengthens the array, and every particle it keeps has opacity above -0.02. |
| `Particles.Cleanup` | scripts/main.js:254-260 | The index walk with `splice` on dead particles gives exactly `Sweep`. |
| `Particles.WalkStepKeepsOutcome` | scripts/main.js:255-259 | One splice-or-update step followed by moving to the next index does not change the pass's final result. |
| `Particles.FilterKeepsLive` | scripts/main.js:255-258 | The intended pass keeps as many particles as are live. A particle is in its result iff it is the update of a live input particle. |
| `Particles.SweepBounds` | scripts/main.js:254-260 | The page's pass never drops a live particle: every live input is in the result, updated or (after a dead neighbour) untouched, so at least `LiveCount` particles remain. It removes at least one particle whenever a dead one is present. |
| `Particles.SweepOnlyFades` | scripts/main.js:254-260 | Each particle left by the pass is either carried over unchanged or the update of a live particle. |
| `Particles.SweepMatchesFilterIff` | scripts/main.js:254-260 | The page's pass equals the intended pass iff no particle other than the last is dead. |
| `Particles.SkippedDeadSurvives` | scripts/main.js:256 | With two dead particles side by side, the pass leaves the second one in place. The intended pass leaves none. |
| `Canvas.HitIsDistanceTest` | scripts/main.js:132-134 | For the true distance `dist`, the squared-distance test holds iff `dist - radius < 1`. |
| `Canvas.LastHit` | scripts/main.js:130-134 | Returns the highest index whose circle is hit, with no hit above it, or `None` iff no circle is hit. |
| `Canvas.Burst` | scripts/main.js:135-145 | A popped circle yields one particle per natural below `2 * radius`, each spawned at the circle's centre. |
| `Canvas.Click` | scripts/main.js:126-150 | With no hit, nothing changes. Otherwise exactly the last-hit circle is removed and the others keep their order. The burst is appended to the particles, and the radius invariant of the rest is kept. |
| `Canvas.Drift` | scripts/main.js:240-241 | An initial velocity component lies in [-0.25, 0.25). |
| `Canvas.Place` | scripts/main.js:238-239 | An initial coordinate keeps the whole circle on the canvas whenever the canvas is at least one diameter wide on that axis. |
| `Canvas.NewCircle` | scripts/main.js:237-242 | A new circle has radius in [2, 6) equal to its `minRadius`, satisfies the radius invariant, lies inside a large enough canvas and drifts slowly. |
| `Canvas.Init` | scripts/main.js:233-244 | `init` creates `CircleCount(width, height)` circles, the i-th built from the i-th draw (exactly `Population`), all satisfying the radius invariant. |
| `Canvas.CircleCountIsCeiling` | scripts/main.js:235-236 | The circle count is `(width * height + 8999) / 9000`. That is one more than the rounded-down quotient when 9000 does not divide the area. |
| `Canvas.Frame` | scripts/main.js:246-261 | A frame keeps the circle count, never grows the particle count and preserves the radius invariant. |
| `Canvas.Resize` | scripts/main.js:120-124 | A resize replaces the circles with a fresh `init` population for the new size: `CircleCount(width, height)` circles, the i-th built by `NewCircle` from the i-th draw, all satisfying the radius invariant. The particles are kept. |
| `Canvas.FramesKeepRadiusBounds` | scripts/main.js:246-252 | Over any number of frames, every circle keeps its radius invariant and the circle count does not change. |

## Left out

- DOM access, `classList`, `textContent` and the cursor element's display toggling. The
  narrator's visible state is modelled as plain data instead.
- `setTimeout` and `requestAnimationFrame` scheduling. They become explicit `Tick`
  events and `Frame` calls. The 40 ms delay is not modelled.
- The tooltip controller (scripts/main.js:66-100). It only shows, hides and positions an
  element on mouse events, and has no logic beyond that.
- Canvas drawing (`draw`, `clearRect`, `ctx.*`) and viewport sizing. The canvas width
  and height are parameters.
- `Math.random()`. It becomes a function from draw number to the values one circle or
  particle consumes.
- IEEE double rounding in friction, gravity, fading, the radius steps and `Math.hypot`.
  The model uses exact reals, and the hit test compares squared distances. With doubles,
  the opacity after 50 updates of 0.02 is not exactly 0.
- `Circles.NextRadius`: the radius invariant (a whole number of unit steps above
  `minRadius`, so never below it) holds only in exact arithmetic. With doubles,
  `radius += 1` rounds once the radius passes a power of two, and the exact `-= 1` steps
  can then stop just above `minRadius`. The test `radius > minRadius` then fires once
  more, so a circle can settle up to one unit below `minRadius`. The same limit applies to
  `Circles.UpdateCircle`, `Circles.UpdateCircles`, `Circles.ShrinksBackWithoutMouse`,
  `Circles.GrowsUnderMouse` and `Canvas.FramesKeepRadiusBounds`.
- `Narrator.Type`: the model reveals one Unicode scalar value per tick. The page's
  `charAt` and `length` count UTF-16 code units. So a character outside the Basic
  Multilingual Plane, such as an emoji, takes two ticks on the page and briefly shows a
  lone surrogate. The model takes one tick. Every story on the page lies in that plane,
  so `Narrator.PageScenario` is unaffected.
- The initial `active` classes from the page markup. `Initial` marks no span, and the
  page-load selection overwrites every span anyway.
- `Narrator.UpdateContent`: for a year that is animated but has no story, the page
  assigns `undefined` to the subtitle's `textContent`, which the DOM stores as the empty
  string; the model shows that empty string directly rather than modelling the DOM
  conversion. The invariant rules this case out in every reachable state.
- Mouse-move handling only stores the mouse position. It appears as the `Mouse`
  parameter of each frame.
