/** The timeline narrator: clicking a year on the timeline marks it active and shows its
    story in the subtitle, typed one character per timer tick the first time and shown whole
    on every later visit. A single `isTyping` lock rejects clicks while a reveal runs.

    The page's `setTimeout` chain is replaced by explicit `Tick` events: each tick runs the
    typewriter's inner `type` step once. DOM elements become plain state: the `active` class
    of every timeline span, the subtitle text, the set of already-animated years and the
    phase of the typewriter. */
module Narrator {
  import opened Wrappers

  /** A year as the page sees it: the string in a span's `data-year` attribute. */
  type Year = string

  /** The fixed inputs of the narrator: the story of each year, and the years of the timeline
      spans in document order. */
  datatype Config = Config(stories: map<Year, string>, spans: seq<Year>)

  /** The typewriter. `Idle` is `isTyping == false`. `Typing(year, text, i)` is a reveal of
      `text` for `year` whose next step reveals `text[i]`, or completes when `i == |text|`.
      `Stalled` is the lock left set with no step pending: the typewriter was started on a
      year without a story, and reading the length of the missing text aborted the handler
      after the lock had been taken. */
  datatype Phase = Idle | Typing(year: Year, text: string, i: nat) | Stalled

  datatype Narrator = Narrator(active: seq<bool>, subtitle: string, animated: set<Year>, phase: Phase)

  /** The page's `isTyping` flag. */
  predicate IsTyping(s: Narrator) {
    !s.phase.Idle?
  }

  /** The stories of the page, keyed by year. */
  const SiteStories: map<Year, string> := map[
    "2016" := "Wanted to be a wizard. Settled for a keyboard.",
    "2017" := "Dreamed of building worlds with code.",
    "2019" := "Love–hate relationship with programming.",
    "2020" := "Obsessed with coding.",
    "2023" := "Found joy again. Won multiple comps.",
    "2024" := "Lost my path. Even the best fall sometimes.",
    "2025" := "Rebuilding. Slower, stronger.",
    "2026" := "You might be part of this story."
  ]

  /** The year selected when the page loads. */
  const StartYear: Year := "2016"

  /** The state before the first selection: no span marked, an empty subtitle, nothing
      animated, no reveal running. */
  function Initial(c: Config): (s: Narrator)
    ensures |s.active| == |c.spans| && !IsTyping(s) && s.animated == {}
  {
    Narrator(seq(|c.spans|, _ => false), "", {}, Idle)
  }

  /** The `active` classes after toggling every span against `year`. */
  function Highlight(spans: seq<Year>, year: Year): (a: seq<bool>)
    ensures |a| == |spans|
    ensures forall k :: 0 <= k < |spans| ==> (a[k] <==> spans[k] == year)
  {
    seq(|spans|, k requires 0 <= k < |spans| => spans[k] == year)
  }

  /** One run of the typewriter's inner `type` step: reveal the next character and stay in
      the reveal, or, once everything is shown, release the lock and record the year as
      animated (the completion callback). */
  function Type(s: Narrator): (r: Narrator)
    requires s.phase.Typing?
    ensures r.active == s.active
    ensures s.animated <= r.animated
    ensures s.phase.i < |s.phase.text| ==>
              && r.subtitle == s.subtitle + [s.phase.text[s.phase.i]]
              && r.animated == s.animated
              && r.phase == Typing(s.phase.year, s.phase.text, s.phase.i + 1)
    ensures s.phase.i >= |s.phase.text| ==>
              && r.subtitle == s.subtitle
              && r.animated == s.animated + {s.phase.year}
              && !IsTyping(r)
  {
    var Typing(year, text, i) := s.phase;
    if i < |text| then
      s.(subtitle := s.subtitle + [text[i]], phase := Typing(year, text, i + 1))
    else
      s.(animated := s.animated + {year}, phase := Idle)
  }

  /** `typewriter(element, text, onComplete)` with the completion callback that adds `year`
      to the animated set. Rejected while a reveal runs; otherwise it clears the subtitle,
      takes the lock and runs the first `type` step at once. A missing text (`undefined`)
      aborts the handler after the lock is taken. */
  function Typewriter(s: Narrator, text: Option<string>, year: Year): (r: Narrator)
    ensures IsTyping(s) ==> r == s
    ensures !IsTyping(s) ==> r.active == s.active
    ensures !IsTyping(s) && text.None? ==> r.phase == Stalled && r.subtitle == "" && r.animated == s.animated
    ensures !IsTyping(s) && text.Some? && |text.value| == 0 ==>
              r.phase == Idle && r.subtitle == "" && r.animated == s.animated + {year}
    ensures !IsTyping(s) && text.Some? && |text.value| > 0 ==>
              r.phase == Typing(year, text.value, 1) && r.subtitle == text.value[..1] && r.animated == s.animated
  {
    if IsTyping(s) then s
    else
      match text
      case None => s.(subtitle := "", phase := Stalled)
      case Some(t) => Type(s.(subtitle := "", phase := Typing(year, t, 0)))
  }

  /** `updateContent(year)`: rejected while a reveal runs; otherwise marks exactly the spans
      of `year` active, then shows the story whole if the year was animated before and
      starts a reveal of it if not: the first character is shown at once, an empty story
      completes at once, and a year without a story leaves the lock stuck. */
  function UpdateContent(c: Config, s: Narrator, year: Year): (r: Narrator)
    ensures IsTyping(s) ==> r == s
    ensures !IsTyping(s) ==> r.active == Highlight(c.spans, year)
    ensures !IsTyping(s) && year in s.animated && year in c.stories ==>
              r.subtitle == c.stories[year] && !IsTyping(r) && r.animated == s.animated
    ensures !IsTyping(s) && year in s.animated && year !in c.stories ==>
              r.subtitle == "" && !IsTyping(r) && r.animated == s.animated
    ensures !IsTyping(s) && year !in s.animated && year in c.stories && |c.stories[year]| > 0 ==>
              && r.phase == Typing(year, c.stories[year], 1)
              && r.subtitle == c.stories[year][..1]
              && r.animated == s.animated
    ensures !IsTyping(s) && year !in s.animated && year in c.stories && |c.stories[year]| == 0 ==>
              r.phase == Idle && r.subtitle == "" && r.animated == s.animated + {year}
    ensures !IsTyping(s) && year !in s.animated && year !in c.stories ==>
              r.phase == Stalled && r.subtitle == "" && r.animated == s.animated
    ensures !IsTyping(s) && year !in s.animated ==>
              r == Typewriter(s.(active := Highlight(c.spans, year)), Lookup(c.stories, year), year)
  {
    if IsTyping(s) then s
    else
      var marked := s.(active := Highlight(c.spans, year));
      if year in s.animated then
        // Under `Inv` an animated year always has a story, so the default is never shown.
        marked.(subtitle := Lookup(c.stories, year).GetOr(""))
      else
        Typewriter(marked, Lookup(c.stories, year), year)
  }

  /** What can happen to the narrator: a click on a timeline span, or the firing of the
      pending `setTimeout(type, 40)`. */
  datatype Event = Select(year: Year) | Tick

  /** One event. A tick when no timer is pending fires nothing. */
  function Apply(c: Config, s: Narrator, e: Event): Narrator {
    match e
    case Select(year) => UpdateContent(c, s, year)
    case Tick => if s.phase.Typing? then Type(s) else s
  }

  /** A sequence of events, in arrival order. */
  function Run(c: Config, s: Narrator, es: seq<Event>): Narrator
    decreases |es|
  {
    if es == [] then s else Run(c, Apply(c, s, es[0]), es[1..])
  }

  /** `n` timer ticks in a row. */
  function Ticks(n: nat): (es: seq<Event>)
    ensures |es| == n && forall k :: 0 <= k < n ==> es[k] == Tick
  {
    seq(n, _ => Tick)
  }

  /** The page load: the start year is selected once. */
  function Boot(c: Config): Narrator {
    UpdateContent(c, Initial(c), StartYear)
  }

  /** The state invariant of the narrator. One entry per span; only years with a story are
      animated; a running reveal belongs to a not-yet-animated year, types that year's story,
      and shows exactly the prefix revealed so far. */
  ghost predicate Inv(c: Config, s: Narrator) {
    && |s.active| == |c.spans|
    && s.animated <= c.stories.Keys
    && (s.phase.Typing? ==>
          && s.phase.year in c.stories
          && c.stories[s.phase.year] == s.phase.text
          && s.phase.year !in s.animated
          && s.phase.i <= |s.phase.text|
          && s.subtitle == s.phase.text[..s.phase.i])
  }

  /** Every event keeps the invariant; in particular each tick extends the shown prefix by
      exactly the next character of the story. */
  lemma ApplyPreservesInv(c: Config, s: Narrator, e: Event)
    requires Inv(c, s)
    ensures Inv(c, Apply(c, s, e))
  {
    match e
    case Tick =>
      if s.phase.Typing? && s.phase.i < |s.phase.text| {
        var t, i := s.phase.text, s.phase.i;
        assert t[..i] + [t[i]] == t[..i + 1];
      }
    case Select(year) =>
      if !IsTyping(s) && year !in s.animated && year in c.stories {
        var t := c.stories[year];
        if |t| > 0 {
          assert t[..0] + [t[0]] == t[..1];
        }
      }
  }

  lemma {:induction false} RunPreservesInv(c: Config, s: Narrator, es: seq<Event>)
    requires Inv(c, s)
    ensures Inv(c, Run(c, s, es))
    decreases |es|
  {
    if es != [] {
      ApplyPreservesInv(c, s, es[0]);
      RunPreservesInv(c, Apply(c, s, es[0]), es[1..]);
    }
  }

  /** The page-load state satisfies the invariant. */
  lemma BootInv(c: Config)
    ensures Inv(c, Boot(c))
  {
    ApplyPreservesInv(c, Initial(c), Select(StartYear));
  }

  /** The animated set only grows, over any sequence of events. */
  lemma {:induction false} RunAnimatedGrows(c: Config, s: Narrator, es: seq<Event>)
    ensures s.animated <= Run(c, s, es).animated
    decreases |es|
  {
    if es != [] {
      RunAnimatedGrows(c, Apply(c, s, es[0]), es[1..]);
    }
  }

  /** A year enters the animated set only when its reveal has completed: the lock is released
      and the subtitle shows that year's whole story. */
  lemma AddedOnlyWhenFullyTyped(c: Config, s: Narrator, e: Event, y: Year)
    requires Inv(c, s)
    requires y in Apply(c, s, e).animated && y !in s.animated
    ensures !IsTyping(Apply(c, s, e))
    ensures y in c.stories && Apply(c, s, e).subtitle == c.stories[y]
  {
    match e
    case Tick =>
      assert s.phase.Typing? && s.phase.year == y;
      assert s.phase.text[..s.phase.i] == s.phase.text;
    case Select(year) =>
      assert year == y;
  }

  /** While the lock is held, clicks change nothing at all: not the active marker, not the
      subtitle, not the animated set, not the running reveal. */
  lemma {:induction false} SelectWhileTypingIgnored(c: Config, s: Narrator, es: seq<Event>)
    requires IsTyping(s)
    requires forall k :: 0 <= k < |es| ==> es[k].Select?
    ensures Run(c, s, es) == s
    decreases |es|
  {
    if es != [] {
      SelectWhileTypingIgnored(c, Apply(c, s, es[0]), es[1..]);
    }
  }

  /** A stalled narrator never recovers: every later event leaves it as it is. */
  lemma {:induction false} StalledIsAbsorbing(c: Config, s: Narrator, es: seq<Event>)
    requires s.phase == Stalled
    ensures Run(c, s, es) == s
    decreases |es|
  {
    if es != [] {
      StalledIsAbsorbing(c, Apply(c, s, es[0]), es[1..]);
    }
  }

  /** A running reveal completes after one tick per remaining character plus the final tick:
      the subtitle then shows the whole story, with nothing cut off and nothing repeated, the
      lock is released and the year is animated. */
  lemma {:induction false} RevealCompletes(c: Config, s: Narrator)
    requires Inv(c, s) && s.phase.Typing?
    ensures var r := Run(c, s, Ticks(|s.phase.text| - s.phase.i + 1));
            && !IsTyping(r)
            && r.subtitle == c.stories[s.phase.year]
            && r.animated == s.animated + {s.phase.year}
            && r.active == s.active
    decreases |s.phase.text| - s.phase.i
  {
    var n := |s.phase.text| - s.phase.i;
    var s' := Apply(c, s, Tick);
    ApplyPreservesInv(c, s, Tick);
    assert Ticks(n + 1)[1..] == Ticks(n);
    if s.phase.i < |s.phase.text| {
      RevealCompletes(c, s');
    } else {
      assert s.subtitle == s.phase.text;
      assert Run(c, s', Ticks(0)) == s';
    }
  }

  /** The number of spans marked active. */
  function CountActive(a: seq<bool>): (n: nat)
    ensures n <= |a|
  {
    if a == [] then 0 else (if a[0] then 1 else 0) + CountActive(a[1..])
  }

  /** No two spans carry the same year. */
  predicate DistinctYears(spans: seq<Year>) {
    forall i, j :: 0 <= i < j < |spans| ==> spans[i] != spans[j]
  }

  /** With distinct span years, toggling against `year` marks exactly one span when `year`
      is on the timeline and none otherwise. */
  lemma {:induction false} HighlightCount(spans: seq<Year>, year: Year)
    requires DistinctYears(spans)
    ensures CountActive(Highlight(spans, year)) == if year in spans then 1 else 0
  {
    if spans != [] {
      var a := Highlight(spans, year);
      assert a[1..] == Highlight(spans[1..], year);
      assert DistinctYears(spans[1..]);
      HighlightCount(spans[1..], year);
      if spans[0] == year {
        assert year !in spans[1..] by {
          forall k | 0 <= k < |spans[1..]|
            ensures spans[1..][k] != year
          {
            assert spans[1..][k] == spans[k + 1];
          }
        }
      } else {
        assert (year in spans) == (year in spans[1..]) by {
          if year in spans {
            var k :| 0 <= k < |spans| && spans[k] == year;
            assert spans[1..][k - 1] == year;
          }
        }
      }
    }
  }

  /** After an accepted selection of a year on the timeline exactly one span is active. */
  lemma ExactlyOneActive(c: Config, s: Narrator, year: Year)
    requires !IsTyping(s) && DistinctYears(c.spans) && year in c.spans
    ensures CountActive(UpdateContent(c, s, year).active) == 1
  {
    HighlightCount(c.spans, year);
  }

  /** The page as loaded: the start year's story is typed in full after one tick per
      character, and a later click on 2025 types "Rebuilding. Slower, stronger." the same
      way with the 2025 span marked active. */
  lemma PageScenario(spans: seq<Year>)
    requires "2025" in spans
    ensures var c := Config(SiteStories, spans);
            var loaded := Run(c, Boot(c), Ticks(|SiteStories[StartYear]|));
            && !IsTyping(loaded)
            && loaded.subtitle == "Wanted to be a wizard. Settled for a keyboard."
            && var picked := Apply(c, loaded, Select("2025"));
               && (forall k :: 0 <= k < |spans| ==> (picked.active[k] <==> spans[k] == "2025"))
               && var shown := Run(c, picked, Ticks(|SiteStories["2025"]|));
                  !IsTyping(shown) && shown.subtitle == "Rebuilding. Slower, stronger."
  {
    var c := Config(SiteStories, spans);
    BootInv(c);
    var b := Boot(c);
    assert b.phase == Typing(StartYear, SiteStories[StartYear], 1);
    RevealCompletes(c, b);
    var loaded := Run(c, b, Ticks(|SiteStories[StartYear]|));
    assert "2025" !in loaded.animated by {
      assert loaded.animated == {StartYear};
    }
    RunPreservesInv(c, b, Ticks(|SiteStories[StartYear]|));
    var picked := Apply(c, loaded, Select("2025"));
    ApplyPreservesInv(c, loaded, Select("2025"));
    assert picked.phase == Typing("2025", SiteStories["2025"], 1);
    RevealCompletes(c, picked);
  }
}
